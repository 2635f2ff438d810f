/**
  The mounted volume: table access, both allocators, chain release, and the
  operations that read, write, truncate and delete files.
 */
module FatVolume {
  import opened FatEntry
  import opened FatChain
  import opened FatData
  import opened FatAlloc

  const FCLUS_BUFSZ := 8192
  const POPULATE_FREELIST_BUFSZ := 8192

  /** The four bytes of a FAT32 entry, its top four bits included. */
  function RawEntry(raw: seq<Byte>, n: nat): nat
    requires EntryByte(FAT32, n) + 4 <= |raw|
  {
    var i := EntryByte(FAT32, n);
    Little(raw[i], raw[i + 1]) + 0x1_0000 * Little(raw[i + 2], raw[i + 3])
  }

  lemma RawMasked(raw: seq<Byte>, clusters: nat, n: nat)
    requires |raw| == TableSize(FAT32, clusters) && n <= clusters + 1
    ensures EntryByte(FAT32, n) + 4 <= |raw|
    ensures RawEntry(raw, n) % 0x1000_0000 == Table(FAT32, raw, clusters)[n]
  {
    hide Little, Table;
    TableAt(FAT32, raw, clusters, n);
  }

  lemma RawIsFree(raw: seq<Byte>, clusters: nat, n: nat)
    requires |raw| == TableSize(FAT32, clusters) && n <= clusters + 1
    ensures EntryByte(FAT32, n) + 4 <= |raw|
    ensures IsFree(FAT32, RawEntry(raw, n)) <==> IsFree(FAT32, Table(FAT32, raw, clusters)[n])
  {
    hide RawEntry, Table;
    RawMasked(raw, clusters, n);
  }

  /** The unread part of the cache: distinct free clusters, none of them the one handed out last. */
  ghost predicate CacheOk(k: FatType, t: seq<nat>, cache: seq<nat>, handed: nat) {
    && Distinct(cache)
    && handed !in cache
    && forall x :: x in cache ==> IsCluster(t, x) && IsFree(k, t[x])
  }

  lemma CachePop(k: FatType, t: seq<nat>, cache: seq<nat>)
    requires CacheOk(k, t, cache, 0) && cache != []
    ensures CacheOk(k, t, cache[1..], cache[0])
    ensures IsCluster(t, cache[0]) && IsFree(k, t[cache[0]])
  {
    assert cache == [cache[0]] + cache[1..];
  }

  /** Where a write stands: cluster j of the chain, and how much the chain grew. */
  datatype Cursor = Cursor(j: nat, cluster: nat, offset: nat, done: nat, added: seq<nat>)

  /**
    A write of buf to file f at position p, begun on volume v0 and device disk0,
    has got as far as w on volume v and device disk.
   */
  ghost predicate Progress(g: Geometry, v0: Vol, disk0: seq<Byte>, v: Vol, disk: seq<Byte>,
                           f: nat, p: nat, buf: seq<Byte>, w: Cursor) {
    && f in v.files && w.done <= |buf|
    && Grown(v0, f, w.added, v)
    && Written(g, disk0, disk, v.files[f], p, buf[..w.done])
    && w.j < |v.files[f]| && w.cluster == v.files[f][w.j]
    && p + w.done == Span(w.j, g.bpc) + w.offset && w.offset <= g.bpc
    && (w.added != [] ==> w.j == |v.files[f]| - 1)
  }

  /** (cluster, offset) is byte position q of chain c: in cluster j, or just behind the last cluster. */
  ghost predicate At(g: Geometry, c: seq<nat>, j: nat, cluster: nat, offset: nat, q: nat) {
    && j < |c| && cluster == c[j] && q == Span(j, g.bpc) + offset
    && (offset < g.bpc || (offset == g.bpc && j == |c| - 1))
  }

  lemma ProgressStart(g: Geometry, v: Vol, disk: seq<Byte>, f: nat, p: nat, buf: seq<Byte>, w: Cursor)
    requires Good(v) && GeoOk(g, disk) && f in v.files && w.j < |v.files[f]| && w.cluster == v.files[f][w.j]
    requires w.done == 0 && w.added == [] && w.offset <= g.bpc && p == Span(w.j, g.bpc) + w.offset
    ensures Progress(g, v, disk, v, disk, f, p, buf, w)
  {
    GrownNone(v, f);
    SpanLess(w.j, |v.files[f]|, g.bpc);
    WrittenNothing(g, disk, v.files[f], p);
    TakeMore(buf, 0, 0);
  }

  lemma ProgressFacts(g: Geometry, v0: Vol, disk0: seq<Byte>, v: Vol, disk: seq<Byte>,
                      f: nat, p: nat, buf: seq<Byte>, w: Cursor)
    requires Progress(g, v0, disk0, v, disk, f, p, buf, w)
    ensures f in v.files && w.j < |v.files[f]| && w.cluster == v.files[f][w.j]
    ensures p + w.done == Span(w.j, g.bpc) + w.offset && w.offset <= g.bpc && w.done <= |buf|
  {
  }

  /** What fits is bounded by the clusters of the chain and the free ones, and reaches that bound when none is left. */
  lemma ProgressRoom(g: Geometry, v0: Vol, disk0: seq<Byte>, v: Vol, disk: seq<Byte>,
                     f: nat, p: nat, buf: seq<Byte>, w: Cursor)
    requires Progress(g, v0, disk0, v, disk, f, p, buf, w)
    ensures f in v0.files && f in v.files && p + w.done <= Span(|v0.files[f]| + v0.freecnt, g.bpc)
    ensures w.offset < g.bpc ==> p + w.done < Span(|v0.files[f]| + v0.freecnt, g.bpc)
    ensures v.freecnt == 0 && w.j == |v.files[f]| - 1 && w.offset == g.bpc ==>
              p + w.done == Span(|v0.files[f]| + v0.freecnt, g.bpc)
    ensures w.added != [] && w.offset > 0 ==> Span(|v.files[f]| - 1, g.bpc) < p + w.done
  {
    hide Written, Run;
    SpanLess(w.j, |v0.files[f]| + v0.freecnt, g.bpc);
  }

  lemma ProgressSettle(g: Geometry, v0: Vol, disk0: seq<Byte>, v: Vol, disk: seq<Byte>,
                       f: nat, p: nat, buf: seq<Byte>, w: Cursor, w': Cursor)
    requires Progress(g, v0, disk0, v, disk, f, p, buf, w)
    requires At(g, v.files[f], w'.j, w'.cluster, w'.offset, p + w.done)
    requires w'.done == w.done && w'.added == w.added && (w'.j == w.j || w'.j == w.j + 1)
    ensures Progress(g, v0, disk0, v, disk, f, p, buf, w')
  {
    hide Written, Grown;
  }

  lemma WrittenFacts(g: Geometry, disk0: seq<Byte>, disk: seq<Byte>, c: seq<nat>, p: nat, b: seq<Byte>)
    requires Written(g, disk0, disk, c, p, b)
    ensures GeoOk(g, disk)
  {
  }

  lemma GoodChain(v: Vol, f: nat, j: nat)
    requires Good(v) && f in v.files && j < |v.files[f]|
    ensures Distinct(v.files[f]) && IsCluster(v.t, v.files[f][j])
  {
    ChainDistinct(v.k, v.t, v.files[f]);
  }

  lemma ProgressWrite(g: Geometry, v0: Vol, disk0: seq<Byte>, v: Vol, disk: seq<Byte>,
                      f: nat, p: nat, buf: seq<Byte>, w: Cursor, n: nat)
    requires Progress(g, v0, disk0, v, disk, f, p, buf, w) && Good(v) && |v.t| == g.clusters + 2
    requires w.done + n <= |buf| && w.offset + n <= g.bpc
    ensures OnDisk(g, w.cluster)
    ensures Progress(g, v0, disk0, v, Poke(g, disk, w.cluster, w.offset, buf[w.done..w.done + n]),
                     f, p, buf, w.(offset := w.offset + n, done := w.done + n))
  {
    hide Grown, Good, Written, Distinct, Poke, Span;
    var c := v.files[f];
    GoodChain(v, f, w.j);
    assert GeoOk(g, disk) by { WrittenFacts(g, disk0, disk, c, p, buf[..w.done]); }
    TakeMore(buf, w.done, n);
    WrittenMore(g, disk0, disk, c, p, buf[..w.done], w.j, w.offset, buf[w.done..w.done + n]);
  }

  lemma ProgressNext(g: Geometry, v0: Vol, disk0: seq<Byte>, v: Vol, v': Vol, disk: seq<Byte>,
                     f: nat, p: nat, buf: seq<Byte>, w: Cursor, n: nat) returns (w': Cursor)
    requires Progress(g, v0, disk0, v, disk, f, p, buf, w) && Good(v) && w.offset == g.bpc
    requires if w.j + 1 < |v.files[f]| then v' == v && n == v.files[f][w.j + 1]
             else Enabled(v, Grow(f, n)) && v' == Apply(v, Grow(f, n))
    ensures w' == Cursor(w.j + 1, n, 0, w.done, w'.added)
    ensures Progress(g, v0, disk0, v', disk, f, p, buf, w')
  {
    hide Good, Written, Run;
    w' := Cursor(w.j + 1, n, 0, w.done, w.added);
    if w.j + 1 == |v.files[f]| {
      GrownMore(v0, f, w.added, v, n);
      FreeNotOwned(v, f, n);
      WrittenGrow(g, disk0, disk, v.files[f], p, buf[..w.done], n);
      w' := w'.(added := w.added + [n]);
    }
  }

  lemma WriteShape(g: Geometry, v0: Vol, disk0: seq<Byte>, v: Vol, disk: seq<Byte>,
                   f: nat, p: nat, buf: seq<Byte>, w: Cursor)
    requires Progress(g, v0, disk0, v, disk, f, p, buf, w)
    ensures w.done <= |buf| && f in v0.files && f in v.files && v.files[f] == v0.files[f] + w.added
    ensures p + w.done <= Span(|v.files[f]|, g.bpc)
    ensures Content(g, disk, v.files[f]) == WriteAt(Content(g, disk0, v.files[f]), p, buf[..w.done])
  {
    hide Run, Content;
  }

  /** A write splices the bytes that got in into the file. */
  lemma WriteSplices(g: Geometry, v0: Vol, disk0: seq<Byte>, v: Vol, disk: seq<Byte>,
                     f: nat, p: nat, buf: seq<Byte>, w: Cursor, size: nat)
    requires Progress(g, v0, disk0, v, disk, f, p, buf, w)
    requires f in v0.files && p <= size <= Span(|v0.files[f]|, g.bpc)
    ensures w.done <= |buf| && f in v.files && Max(size, p + w.done) <= Span(|v.files[f]|, g.bpc)
    ensures FileBytes(g, disk, v.files[f], Max(size, p + w.done))
         == Splice(FileBytes(g, disk0, v0.files[f], size), p, buf[..w.done])
  {
    hide Progress, Content, FileBytes, WriteAt, Splice, Span;
    WriteShape(g, v0, disk0, v, disk, f, p, buf, w);
    SpliceFile(g, disk0, disk, v0.files[f], w.added, size, p, buf[..w.done]);
  }

  /** A write, complete or not, keeps the chain and the content of every other file. */
  lemma WriteSparesOthers(g: Geometry, v0: Vol, disk0: seq<Byte>, v: Vol, disk: seq<Byte>,
                          f: nat, p: nat, buf: seq<Byte>, w: Cursor, h: nat)
    requires Progress(g, v0, disk0, v, disk, f, p, buf, w) && Good(v) && h in v0.files && h != f
    ensures h in v.files && v.files[h] == v0.files[h]
    ensures Content(g, disk, v.files[h]) == Content(g, disk0, v0.files[h])
  {
    hide Run, Written;
    WrittenElsewhere(g, disk0, disk, v.files[f], p, buf[..w.done], v.files[h]);
  }

  lemma WriteKeepsHead(g: Geometry, v0: Vol, disk0: seq<Byte>, v: Vol, disk: seq<Byte>,
                       f: nat, p: nat, buf: seq<Byte>, w: Cursor)
    requires Progress(g, v0, disk0, v, disk, f, p, buf, w)
    ensures w.done <= |buf| && f in v0.files && f in v.files && v0.files[f] <= v.files[f]
    ensures Has(Content(g, disk, v.files[f]), p, buf[..w.done])
  {
    hide Run;
  }

  /** The size after a write, complete or not, is covered by the chain. */
  lemma WriteFits(g: Geometry, v0: Vol, disk0: seq<Byte>, v: Vol, disk: seq<Byte>,
                  f: nat, p: nat, buf: seq<Byte>, w: Cursor, size: nat)
    requires Progress(g, v0, disk0, v, disk, f, p, buf, w)
    requires f in v0.files && size <= Span(|v0.files[f]|, g.bpc)
    ensures w.done <= |buf| && f in v.files && Volume.GrownSize(size, p + w.done) <= Span(|v.files[f]|, g.bpc)
    ensures size <= Span(|v.files[f]|, g.bpc) && p + w.done <= Span(|v.files[f]|, g.bpc)
    ensures Content(g, disk, v.files[f]) == WriteAt(Content(g, disk0, v.files[f]), p, buf[..w.done])
  {
    hide Progress, Content, WriteAt;
    WriteShape(g, v0, disk0, v, disk, f, p, buf, w);
    SpanGrows(|v0.files[f]|, |v.files[f]|, g.bpc);
  }

  lemma {:induction false} SpanGrows(a: nat, b: nat, bpc: nat)
    requires a <= b
    ensures Span(a, bpc) <= Span(b, bpc)
  {
    if a < b { SpanGrows(a, b - 1, bpc); }
  }

  /** The size in the directory entry is the right one exactly when the new end fits in 32 bits. */
  lemma SizeExactIff(size: nat, position: nat)
    requires size < 0x1_0000_0000
    ensures Volume.GrownSize(size, position) == Max(size, position) <==> position < 0x1_0000_0000
  {
  }

  lemma ZeroIsFree(k: FatType)
    ensures IsFree(k, 0) && !LegalClus(k, 0)
  {
  }

  class File {
    var size: nat        // DIR_FileSize
    var curAbsOff: nat
    var fstclus: nat

    constructor ()
      ensures size == 0 && curAbsOff == 0 && fstclus == 0
    {
      size, curAbsOff, fstclus := 0, 0, 0;
    }
  }

  class Volume {
    const kind: FatType
    const geo: Geometry
    const fat: array<Byte>
    const freeclus: array<nat>
    ghost const reserved: seq<nat>    // the entries 0 and 1, which belong to no cluster
    var freecnt: nat
    var nextfree: nat
    var fstfclus: nat
    var fclusz: nat
    var disk: seq<Byte>
    ghost var files: Files

    /** A volume as read from a device, before its free-space fields are set up. */
    constructor (kind: FatType, geo: Geometry, table: seq<Byte>, disk: seq<Byte>, ghost files: Files)
      requires |table| == TableSize(kind, geo.clusters) && geo.clusters + 2 <= BadValue(kind)
      ensures Shape() && fresh(fat) && fresh(freeclus)
      ensures this.kind == kind && this.geo == geo && fat[..] == table && this.disk == disk && this.files == files
    {
      this.kind, this.geo, this.disk, this.files := kind, geo, disk, files;
      var bytes := new Byte[|table|](i requires 0 <= i < |table| => table[i]);
      fat, freeclus := bytes, new nat[FCLUS_BUFSZ];
      reserved := Table(kind, table, geo.clusters)[..2];
      freecnt, nextfree, fstfclus, fclusz := 0, 0, 0, 0;
      new;
      assert fat[..] == table;
    }

    /**
      Mounting goes on whatever the set-up of the free-space fields reports.
      FAT12/16 volumes are always good then; a FAT32 volume is, exactly when
      its stored count is right and no reserved entry from its hint on is free.
     */
    static method Mount(kind: FatType, geo: Geometry, table: seq<Byte>, disk: seq<Byte>, ghost files: Files,
                        freeCount: nat, hint: nat) returns (v: Volume)
      requires |table| == TableSize(kind, geo.clusters) && geo.clusters + 2 <= BadValue(kind)
      requires GeoOk(geo, disk) && ChainsOk(kind, Table(kind, table, geo.clusters), files)
      requires kind == FAT32 && geo.clusters == 0 ==> freeCount == 0
      ensures fresh(v) && fresh(v.fat) && fresh(v.freeclus)
      ensures v.kind == kind && v.geo == geo && v.disk == disk && v.files == files
      ensures v.Shape() && v.T() == Table(kind, table, geo.clusters)
      ensures kind != FAT32 ==> v.Valid()
      ensures kind == FAT32 ==>
                (v.Valid() <==> freeCount == CountFree(kind, v.T(), |v.T()|) && NoneFree(kind, v.T(), hint, 2))
    {
      v := new Volume(kind, geo, table, disk, files);
      var res := v.InitializeFreelist(freeCount, hint);
    }

    ghost predicate Shape()
      reads fat
    {
      && fat.Length == TableSize(kind, geo.clusters)
      && TableOk(kind, Table(kind, fat[..], geo.clusters))
      && Table(kind, fat[..], geo.clusters)[..2] == reserved
      && freeclus.Length == FCLUS_BUFSZ
      && fat as object != freeclus as object
    }

    /** The table as numbers. */
    ghost function T(): (t: seq<nat>)
      requires Shape()
      reads fat
      ensures |t| == geo.clusters + 2 && TableOk(kind, t) && t[..2] == reserved
    {
      Table(kind, fat[..], geo.clusters)
    }

    /** FAT12/16 search from a cluster; FAT32 may start at a reserved entry as long as none from there on is free. */
    ghost predicate HintOk()
      reads this
    {
      if kind == FAT32 then NoneFree(kind, reserved, nextfree, 2)
      else 2 <= nextfree && (geo.clusters > 0 ==> nextfree <= geo.clusters + 1)
    }

    /** The cache fields, for FAT32. */
    ghost predicate CacheShape()
      reads this
    {
      fstfclus <= fclusz <= freeclus.Length
    }

    ghost predicate CacheValid(handed: nat)
      requires Shape()
      reads this, fat, freeclus
    {
      CacheShape() && (kind == FAT32 ==> CacheOk(kind, T(), freeclus[fstfclus..fclusz], handed))
    }

    /** The invariant while cluster `handed` (0: none) was handed out but not yet marked. */
    ghost predicate Inv(handed: nat)
      reads this, fat, freeclus
    {
      && Shape()
      && GeoOk(geo, disk)
      && ChainsOk(kind, T(), files)
      && freecnt + (if handed == 0 then 0 else 1) == CountFree(kind, T(), |T()|)
      && (handed != 0 ==> IsCluster(T(), handed) && IsFree(kind, T()[handed]))
      && HintOk()
      && CacheValid(handed)
    }

    ghost predicate Valid()
      reads this, fat, freeclus
      ensures Valid() ==> Shape()
    {
      Inv(0)
    }

    ghost function Abs(): (v: Vol)
      requires Shape()
      reads this, fat
    {
      Vol(kind, T(), freecnt, files)
    }

    lemma AbsGood()
      requires Valid()
      ensures Good(Abs()) && |T()| == geo.clusters + 2 && GeoOk(geo, disk)
    {
    }

    /** What an operation that changes the table has to establish. */
    lemma ValidFromGood()
      requires Shape() && GeoOk(geo, disk) && HintOk() && CacheValid(0) && Good(Abs())
      ensures Valid()
    {
    }

    lemma ValidParts()
      requires Valid()
      ensures Shape() && GeoOk(geo, disk) && HintOk() && CacheValid(0) && Good(Abs())
    {
    }

    lemma InvParts(handed: nat)
      requires Inv(handed)
      ensures Shape() && GeoOk(geo, disk) && HintOk() && CacheValid(handed)
    {
    }

    // ---- table access ----

    method Fat12ReadEntry(n: nat) returns (v: nat)
      requires Shape() && kind == FAT12 && n <= geo.clusters + 1
      ensures v == T()[n]
    {
      TableAt(kind, fat[..], geo.clusters, n);
      var i := n * 3 / 2;
      var lo: int, hi: int := fat[i], fat[i + 1];
      if n % 2 == 0 {
        hi := hi % 16;
      } else {
        lo := lo / 16;
        lo := lo + hi * 16 % 256;
        hi := hi / 16;
      }
      v := lo + 256 * hi;
    }

    method Fat16ReadEntry(n: nat) returns (v: nat)
      requires Shape() && kind == FAT16 && n <= geo.clusters + 1
      ensures v == T()[n]
    {
      TableAt(kind, fat[..], geo.clusters, n);
      v := Little(fat[2 * n], fat[2 * n + 1]);
    }

    method Fat32ReadEntry(n: nat) returns (v: nat)
      requires Shape() && kind == FAT32 && n <= geo.clusters + 1
      ensures v == T()[n]
    {
      hide RawEntry, Table, TableOk, EntryByte, TableSize;
      RawMasked(fat[..], geo.clusters, n);
      v := RawEntry(fat[..], n) % 0x1000_0000;
    }

    method ReadEntry(n: nat) returns (v: nat)
      requires Shape() && n <= geo.clusters + 1
      ensures v == T()[n]
    {
      match kind
      case FAT12 => v := Fat12ReadEntry(n);
      case FAT16 => v := Fat16ReadEntry(n);
      case FAT32 => v := Fat32ReadEntry(n);
    }

    method Fat12WriteEntry(n: nat, value: nat)
      requires EntryByte(FAT12, n) + 2 <= fat.Length
      modifies fat
      ensures fat[..] == Put(FAT12, old(fat[..]), n, value)
    {
      var i := n * 3 / 2;
      var lo: int, hi: int := value % 256, value / 256 % 256;
      if n % 2 == 0 {
        fat[i] := lo;
        var b: int := fat[i + 1];
        fat[i + 1] := b / 16 * 16 + hi % 16;
      } else {
        var b: int := fat[i];
        fat[i] := b % 16 + lo * 16 % 256;
        fat[i + 1] := hi * 16 % 256 + lo / 16;
      }
    }

    method Fat16WriteEntry(n: nat, value: nat)
      requires EntryByte(FAT16, n) + 2 <= fat.Length
      modifies fat
      ensures fat[..] == Put(FAT16, old(fat[..]), n, value)
    {
      fat[2 * n] := value % 256;
      fat[2 * n + 1] := value / 256 % 256;
    }

    method Fat32WriteEntry(n: nat, value: nat)
      requires EntryByte(FAT32, n) + 4 <= fat.Length
      modifies fat
      ensures fat[..] == Put(FAT32, old(fat[..]), n, value)
    {
      var w := value % 0x1000_0000;
      fat[4 * n] := w % 256;
      fat[4 * n + 1] := w / 256 % 256;
      fat[4 * n + 2] := w / 0x1_0000 % 256;
      fat[4 * n + 3] := w / 0x100_0000 % 256;
    }

    method WriteEntry(n: nat, value: nat)
      requires Shape() && 2 <= n <= geo.clusters + 1
      modifies fat
      ensures Shape()
      ensures T() == old(T())[n := Trunc(kind, value)]
    {
      PutRefinesUpdate(kind, fat[..], geo.clusters, n, value);
      match kind
      case FAT12 => Fat12WriteEntry(n, value);
      case FAT16 => Fat16WriteEntry(n, value);
      case FAT32 => Fat32WriteEntry(n, value);
    }

    /** Counts the free entries of a FAT12/16 volume at mount time. */
    method ScanForFree() returns (count: nat)
      requires Shape()
      ensures count == CountFree(kind, T(), |T()|)
    {
      count := 0;
      var i := 2;
      while i <= geo.clusters + 1
        invariant 2 <= i <= geo.clusters + 2
        invariant count == CountFree(kind, T(), i)
      {
        var val := ReadEntry(i);
        if IsFree(kind, val) {
          count := count + 1;
        }
        i := i + 1;
      }
    }

    // ---- allocation ----

    /** Next-fit search of FAT12/16. */
    method GetFree16() returns (c: nat)
      requires Valid() && kind != FAT32
      modifies this`freecnt, this`nextfree
      ensures c == 0 <==> old(freecnt) == 0
      ensures c == 0 ==> freecnt == old(freecnt) && nextfree == old(nextfree)
      ensures c != 0 ==> IsNextFit(kind, T(), old(nextfree), c) && freecnt == old(freecnt) - 1
      ensures c != 0 ==> nextfree == if c == geo.clusters + 1 then 2 else c + 1
      ensures Inv(c)
    {
      hide Shape, T, ChainsOk, GeoOk, IsFree, CountFree;
      if freecnt <= 0 {
        return 0;
      }
      ghost var some := CountWitness(kind, T(), |T()|);
      c := NextFit();
      freecnt := freecnt - 1;
    }

    /** The search loop of FAT12/16; freecnt stays positive until it returns. */
    method NextFit() returns (c: nat)
      requires Shape() && 2 <= nextfree <= geo.clusters + 1 && CountFree(kind, T(), |T()|) > 0
      modifies this`nextfree
      ensures IsNextFit(kind, T(), old(nextfree), c)
      ensures nextfree == if c == geo.clusters + 1 then 2 else c + 1
    {
      ghost var goal := NextFitExists(kind, T(), nextfree);
      while true
        invariant 2 <= nextfree <= geo.clusters + 1
        invariant IsNextFit(kind, T(), nextfree, goal)
        decreases Distance(T(), nextfree, goal)
      {
        var val := nextfree;
        var entry := ReadEntry(nextfree);
        nextfree := nextfree + 1;
        if nextfree > geo.clusters + 1 {
          nextfree := 2;
        }
        if IsFree(kind, entry) {
          assert val == goal;
          return val;
        }
      }
    }

    /** The read position of a refill: where an exhausted hint starts again. */
    ghost function RefillStart(): nat
      reads this
    {
      if nextfree > geo.clusters + 1 then 3 else nextfree
    }

    /** What the loop of a refill has collected so far, in its first or second pass. */
    ghost function Collected(t: seq<nat>, start: nat, second: bool, next: nat): seq<nat>
      requires next <= |t|
    {
      if second then Scan(kind, t, start, |t|) + Scan(kind, t, 2, next) else Scan(kind, t, start, next)
    }

    lemma CollectedIsPrefix(t: seq<nat>, start: nat, second: bool, next: nat)
      requires start <= |t| && 2 <= |t| && (if second then 2 else start) <= next <= |t|
      ensures Collected(t, start, second, next) <= Visits(kind, t, start)
      ensures second && next == |t| ==> Collected(t, start, second, next) == Visits(kind, t, start)
    {
      ScanSplit(kind, t, if second then 2 else start, next, |t|);
    }

    lemma CollectedStep(t: seq<nat>, start: nat, second: bool, next: nat)
      requires start <= |t| && (if second then 2 else start) <= next < |t|
      ensures Collected(t, start, second, next + 1)
           == Collected(t, start, second, next) + if IsFree(kind, t[next]) then [next] else []
    {
    }

    /** buf holds the entries from base on. */
    ghost predicate ChunkOk(t: seq<nat>, buf: seq<nat>, base: nat) {
      base + |buf| <= |t| && forall j :: 0 <= j < |buf| ==> (IsFree(kind, buf[j]) <==> IsFree(kind, t[base + j]))
    }

    /** Reads the entries from..from+count-1 as stored. */
    method ReadChunk(from: nat, count: nat) returns (buf: seq<nat>)
      requires Shape() && kind == FAT32 && from + count <= geo.clusters + 2
      ensures |buf| == count && ChunkOk(T(), buf, from)
    {
      buf := [];
      while |buf| < count
        invariant |buf| <= count && ChunkOk(T(), buf, from)
      {
        RawIsFree(fat[..], geo.clusters, from + |buf|);
        buf := buf + [RawEntry(fat[..], from + |buf|)];
      }
    }

    /** Appends a cluster to the cache. */
    method Stash(c: nat)
      requires fclusz < freeclus.Length
      modifies this`fclusz, freeclus
      ensures fclusz == old(fclusz) + 1
      ensures freeclus[..fclusz] == old(freeclus[..fclusz]) + [c]
    {
      freeclus[fclusz] := c;
      fclusz := fclusz + 1;
    }

    /**
      Refills the free-cluster cache.  Nothing is assumed of freecnt: the scan
      ends in any case, and what it collects is Refill of the table.
     */
    method PopulateFreelist() returns (res: int)
      requires Shape() && CacheShape() && kind == FAT32 && (freecnt > 0 ==> geo.clusters > 0)
      modifies this`nextfree, this`fclusz, this`fstfclus, freeclus
      ensures Shape() && CacheShape() && T() == old(T())
      ensures old(freecnt) == 0 ==> res == -1 && nextfree == old(nextfree)
      ensures old(freecnt) == 0 ==>
                fclusz == old(fclusz) && fstfclus == old(fstfclus) && freeclus[..] == old(freeclus[..])
      ensures old(freecnt) > 0 ==> res == fclusz && fstfclus == 0 && nextfree == old(RefillStart())
      ensures old(freecnt) > 0 ==>
                freeclus[..fclusz] == Refill(kind, T(), old(RefillStart()), freecnt, FCLUS_BUFSZ)
    {
      if freecnt <= 0 {
        return -1;
      }
      if nextfree > geo.clusters + 1 {
        nextfree := 3;
      }
      fclusz, fstfclus := 0, 0;
      Gather();
      return fclusz;
    }

    /** The scan of a refill, over chunks of the table. */
    method Gather()
      requires Shape() && kind == FAT32 && fclusz == 0 && geo.clusters > 0 && nextfree <= geo.clusters + 2
      modifies this`fclusz, freeclus
      ensures Shape() && T() == old(T()) && fclusz <= FCLUS_BUFSZ
      ensures freeclus[..fclusz] == Refill(kind, T(), nextfree, freecnt, FCLUS_BUFSZ)
    {
      hide T, IsFree, TableOk;
      var i, count := POPULATE_FREELIST_BUFSZ, POPULATE_FREELIST_BUFSZ;
      var buf: seq<nat> := [];
      var wrapped := false;
      var freecl := freecnt;
      var last := geo.clusters + 1;
      var next := nextfree;
      ghost var t := T();
      ghost var base: nat := 0;
      while freecl > 0
        invariant (if wrapped then 2 else nextfree) <= next <= last + 1
        invariant fclusz <= FCLUS_BUFSZ && fclusz + freecl == freecnt
        invariant T() == t && freeclus[..fclusz] == Collected(t, nextfree, wrapped, next)
        invariant 0 <= i <= count
        invariant i < count ==> count == |buf| && base + i == next && ChunkOk(t, buf, base)
        decreases !wrapped, last + 1 - next
      {
        if next > last {
          if !wrapped {
            wrapped := true;
            next := 2;
          } else {
            break;
          }
        }
        if i >= count {
          count := Min(POPULATE_FREELIST_BUFSZ, last - next + 1);
          buf := ReadChunk(next, count);
          base := next;
          i := 0;
        }
        CollectedStep(t, nextfree, wrapped, next);
        if fclusz < FCLUS_BUFSZ {
          if IsFree(kind, buf[i]) {
            Stash(next);
            freecl := freecl - 1;
          }
        } else {
          break;
        }
        next := next + 1;
        i := i + 1;
      }
      CollectedIsPrefix(t, nextfree, wrapped, next);
    }

    /** A refill with an exact counter and a good hint leaves a good cache, not empty when some cluster is free. */
    lemma RefillGood()
      requires Shape() && kind == FAT32 && CacheShape() && HintOk() && nextfree <= geo.clusters + 2 && fstfclus == 0
      requires freecnt == CountFree(kind, T(), |T()|)
      requires freeclus[..fclusz] == Refill(kind, T(), nextfree, freecnt, FCLUS_BUFSZ)
      ensures CacheValid(0) && (freecnt > 0 ==> fclusz > 0)
    {
      hide IsFree, CountFree, Refill, TableOk;
      var t := T();
      if nextfree < 2 {
        assert NoneFree(kind, t, nextfree, 2) by {
          assert forall x :: 0 <= x < 2 ==> t[x] == reserved[x];
        }
        RefillLow(kind, t, nextfree, freecnt, FCLUS_BUFSZ);
        RefillExact(kind, t, 2, freecnt, FCLUS_BUFSZ);
      } else {
        RefillExact(kind, t, nextfree, freecnt, FCLUS_BUFSZ);
      }
      assert freeclus[0..fclusz] == freeclus[..fclusz];
    }

    /** The hint and the clusters that the next FAT32 allocations use: what the cache holds, or what a refill brings. */
    ghost function NextHint(): nat
      reads this
    {
      if fstfclus < fclusz || freecnt == 0 then nextfree else RefillStart()
    }

    ghost function Upcoming(): seq<nat>
      reads this, fat, freeclus
    {
      if !Shape() || !CacheShape() then []
      else if fstfclus < fclusz || freecnt == 0 then freeclus[fstfclus..fclusz]
      else Refill(kind, T(), RefillStart(), freecnt, FCLUS_BUFSZ)
    }

    /** The refill loop of the FAT32 allocator. */
    method FillCache() returns (ok: bool)
      requires Valid() && kind == FAT32
      modifies this`nextfree, this`fclusz, this`fstfclus, freeclus
      ensures Valid() && CacheShape() && T() == old(T())
      ensures ok <==> freecnt > 0
      ensures ok ==> fstfclus < fclusz
      ensures nextfree == old(NextHint()) && freeclus[fstfclus..fclusz] == old(Upcoming())
    {
      hide Shape, T, ChainsOk, GeoOk, IsFree, CountFree, Refill;
      while fstfclus >= fclusz
        invariant Valid() && T() == old(T())
        invariant NextHint() == old(NextHint()) && Upcoming() == old(Upcoming())
        decreases fstfclus >= fclusz
      {
        if freecnt > 0 {
          ghost var some := CountWitness(kind, T(), |T()|);
        }
        var res := PopulateFreelist();
        if freecnt > 0 {
          RefillGood();
        }
        if res <= 0 {
          return false;
        }
        assert freeclus[0..fclusz] == freeclus[..fclusz];
      }
      CacheWithinFree();
      return true;
    }

    /**
      Setting up the free-space fields: FAT12/16 count the free entries, FAT32
      trusts the count and the hint stored on the volume.  A FAT32 hint that is
      not legal, a hint out of range and a volume without free clusters are
      reported by -1, with the fields set all the same.
     */
    method InitializeFreelist(freeCount: nat, hint: nat) returns (res: int)
      requires Shape() && GeoOk(geo, disk) && ChainsOk(kind, T(), files)
      requires kind == FAT32 && geo.clusters == 0 ==> freeCount == 0
      modifies this`freecnt, this`nextfree, this`fclusz, this`fstfclus, freeclus
      ensures Shape() && CacheShape() && T() == old(T())
      ensures kind != FAT32 ==> res == 0 && Valid()
      ensures kind == FAT32 ==>
                (res == 0 <==> LegalClus(kind, hint) && hint <= geo.clusters + 1 && freeCount > 0
                               && (CountFree(kind, T(), |T()|) > 0 || !NoneFree(kind, T(), hint, 2)))
      ensures kind == FAT32 && res == 0 ==> freeclus[..fclusz] == Refill(kind, T(), hint, freeCount, FCLUS_BUFSZ)
      ensures kind == FAT32 ==> (Valid() <==> freeCount == CountFree(kind, T(), |T()|) && NoneFree(kind, T(), hint, 2))
      ensures res == 0 || res == -1
    {
      hide T, Shape, ChainsOk, GeoOk, IsFree, CountFree, LegalClus, Refill;
      fstfclus, fclusz := 0, 0;
      ReservedFree(hint);
      if kind == FAT32 {
        freecnt, nextfree := freeCount, hint;
        if !LegalClus(kind, nextfree) || nextfree > geo.clusters + 1 {
          return -1;
        }
        res := PopulateFreelist();
        if HintOk() && freeCount == CountFree(kind, T(), |T()|) && freecnt > 0 {
          RefillGood();
        }
        if freecnt > 0 {
          RefillSomeIff(kind, T(), hint, freeCount, FCLUS_BUFSZ);
        }
        if res <= 0 {
          return -1;
        }
      } else {
        freecnt := ScanForFree();
        nextfree := 2;
      }
      return 0;
    }

    lemma ReservedFree(hint: nat)
      requires Shape()
      ensures NoneFree(kind, T(), hint, 2) <==> NoneFree(kind, reserved, hint, 2)
    {
      var t := T();
      assert forall x :: 0 <= x < 2 ==> t[x] == reserved[x];
    }

    lemma CacheWithinFree()
      requires Valid() && kind == FAT32 && fstfclus < fclusz
      ensures freecnt > 0
    {
      CachePop(kind, T(), freeclus[fstfclus..fclusz]);
      var c := freeclus[fstfclus..fclusz][0];
      CountPositive(kind, T(), |T()|, c);
    }

    /** Hands out the next cached cluster of FAT32, refilling the cache when it is used up. */
    method GetFree32() returns (c: nat)
      requires Valid() && kind == FAT32
      modifies this`freecnt, this`nextfree, this`fclusz, this`fstfclus, freeclus
      ensures Shape() && CacheShape() && T() == old(T())
      ensures c == 0 <==> old(freecnt) == 0
      ensures c == 0 ==> freecnt == old(freecnt)
      ensures c != 0 ==> IsCluster(T(), c) && IsFree(kind, T()[c]) && freecnt == old(freecnt) - 1
      ensures c != 0 ==> old(Upcoming()) == [c] + freeclus[fstfclus..fclusz]
      ensures nextfree == Max(c, old(NextHint()))
      ensures Inv(c)
    {
      hide Shape, T, ChainsOk, GeoOk, CacheOk, IsFree, CountFree, Upcoming;
      var ok := FillCache();
      if !ok {
        return 0;
      }
      c := freeclus[fstfclus];
      assert freeclus[fstfclus..fclusz] == [c] + freeclus[fstfclus + 1..fclusz];
      CachePop(kind, T(), freeclus[fstfclus..fclusz]);
      freecnt := freecnt - 1;
      fstfclus := fstfclus + 1;
      nextfree := if c > nextfree then c else nextfree;
    }

    method GetFreeCluster() returns (c: nat)
      requires Valid()
      modifies this`freecnt, this`nextfree, this`fclusz, this`fstfclus, freeclus
      ensures Shape() && T() == old(T())
      ensures c == 0 <==> old(freecnt) == 0
      ensures c == 0 ==> freecnt == old(freecnt)
      ensures c != 0 ==> IsCluster(T(), c) && IsFree(kind, T()[c]) && freecnt == old(freecnt) - 1
      ensures Inv(c)
    {
      if kind == FAT32 {
        c := GetFree32();
      } else {
        c := GetFree16();
      }
    }

    // ---- chains ----

    /** The cache survives table changes that keep its clusters free. */
    lemma CacheKept(t: seq<nat>, cache: seq<nat>, handed: nat)
      requires Shape() && |t| == |T()| && (kind == FAT32 ==> CacheOk(kind, t, cache, handed))
      requires forall x: nat :: IsCluster(t, x) && x != handed && IsFree(kind, t[x]) ==> IsFree(kind, T()[x])
      ensures kind == FAT32 ==> CacheOk(kind, T(), cache, 0)
    {
    }

    lemma LastIsCluster(v: Vol, f: nat)
      requires Good(v) && f in v.files && v.files[f] != []
      ensures IsCluster(v.t, Last(v.files[f])) && IsChain(v.k, v.t, v.files[f])
    {
    }

    lemma GrowKeepsFree(v: Vol, f: nat, n: nat)
      requires Good(v) && Enabled(v, Grow(f, n))
      ensures forall x: nat :: IsCluster(v.t, x) && x != n && IsFree(v.k, v.t[x]) ==>
                IsFree(v.k, Apply(v, Grow(f, n)).t[x])
    {
      ChainDistinct(v.k, v.t, v.files[f]);
      assert Last(v.files[f]) in v.files[f];
    }

    /** Links a new cluster after the last cluster c of file f, when there is one. */
    method LinkNew(c: nat, ghost f: nat) returns (n: nat)
      requires Valid() && f in files && files[f] != [] && c == Last(files[f])
      modifies this`freecnt, this`nextfree, this`fclusz, this`fstfclus, this`files, freeclus, fat
      ensures Valid()
      ensures n == 0 <==> old(freecnt) == 0
      ensures n == 0 ==> Abs() == old(Abs())
      ensures n != 0 ==> Enabled(old(Abs()), Grow(f, n)) && Abs() == Apply(old(Abs()), Grow(f, n))
    {
      hide Valid, Inv, Shape, T, Good, HintOk, GeoOk, CacheOk, IsFree;
      AbsGood();
      LastIsCluster(Abs(), f);
      ghost var v := Abs();
      n := GetFreeCluster();
      InvParts(n);
      if n == 0 {
        ValidFromGood();
      } else {
        ghost var cache := freeclus[fstfclus..fclusz];
        GrowGood(v, f, n);
        ClusterIsLegal(kind, T(), n);
        WriteEntry(c, n);
        WriteEntry(n, EocValue(kind));
        files := files[f := files[f] + [n]];
        GrowKeepsFree(v, f, n);
        CacheKept(v.t, cache, n);
        ValidFromGood();
      }
    }

    /** Gives file f its first cluster. */
    method StartFile(file: File, ghost f: nat) returns (ok: bool)
      requires Valid() && f in files && files[f] == []
      modifies this`freecnt, this`nextfree, this`fclusz, this`fstfclus, this`files, freeclus, fat, file
      ensures Valid()
      ensures ok <==> old(freecnt) > 0
      ensures !ok ==> Abs() == old(Abs()) && file.fstclus == old(file.fstclus)
      ensures ok ==> var n := file.fstclus; Enabled(old(Abs()), Start(f, n)) && Abs() == Apply(old(Abs()), Start(f, n))
      ensures ok ==> file.size == 0 && file.curAbsOff == 0
    {
      hide Valid, Inv, Shape, T, Good, HintOk, GeoOk, CacheOk;
      AbsGood();
      ghost var v := Abs();
      var n := GetFreeCluster();
      InvParts(n);
      if n == 0 {
        ValidFromGood();
        return false;
      }
      ghost var cache := freeclus[fstfclus..fclusz];
      StartGood(v, f, n);
      file.fstclus := n;
      file.curAbsOff := 0;
      file.size := 0;
      WriteEntry(n, EocValue(kind));
      files := files[f := [n]];
      CacheKept(v.t, cache, n);
      ValidFromGood();
      return true;
    }

    /** Releases the chain that starts at a cluster. */
    method Unlinkn(first: nat, ghost c: seq<nat>) returns (res: int)
      requires Shape() && (LegalClus(kind, first) ==> IsChain(kind, T(), c) && c[0] == first)
      modifies this`freecnt, fat
      ensures Shape()
      ensures LegalClus(kind, first) ==>
                res == 0 && T() == Zero(old(T()), c) && freecnt == old(freecnt) + |c|
      ensures !LegalClus(kind, first) ==>
                res == (if IsBad(kind, first) then -1 else 0) && T() == old(T()) && freecnt == old(freecnt)
    {
      if IsFree(kind, first) || IsEoc(kind, first) {
        return 0;
      }
      if IsBad(kind, first) {
        return -1;
      }
      ghost var t := T();
      ghost var i := 0;
      var cluster := first;
      while true
        invariant Shape() && 0 <= i < |c| && cluster == c[i]
        invariant T() == Zero(t, c[..i]) && freecnt == old(freecnt) + i
        decreases |c| - i
      {
        ReleaseStep(kind, t, c, i);
        var next := ReadEntry(cluster);
        WriteEntry(cluster, 0);
        freecnt := freecnt + 1;
        cluster := next;
        i := i + 1;
        if IsEoc(kind, next) {
          assert c[..i] == c;
          return 0;
        }
      }
    }

    /** The directory entry of file f agrees with its chain. */
    ghost predicate FileOk(file: File, f: nat)
      reads this, file
    {
      && f in files
      && if files[f] == [] then !LegalClus(kind, file.fstclus)
         else file.fstclus == files[f][0] && file.size <= Span(|files[f]|, geo.bpc)
    }

    /** Follows a chain for a number of links. */
    method Walk(first: nat, steps: nat, ghost c: seq<nat>) returns (cluster: nat)
      requires Shape() && IsChain(kind, T(), c) && c[0] == first && steps < |c|
      ensures cluster == c[steps]
    {
      cluster := first;
      var left := steps;
      while left > 0
        invariant 0 <= left <= steps && cluster == c[steps - left]
      {
        cluster := ReadEntry(cluster);
        left := left - 1;
      }
    }

    /** Closes chain c of file f after keep clusters and releases the rest. */
    method CutChainAt(file: File, ghost c: seq<nat>, ghost keep: nat, cluster: nat, empty: bool)
      requires Shape() && IsChain(kind, T(), c) && keep <= |c|
      requires empty == (keep == 0) && cluster == c[if empty then 0 else keep - 1]
      modifies this`freecnt, fat, file`fstclus
      ensures Shape() && T() == CutTable(kind, old(T()), c, keep) && freecnt == old(freecnt) + |c| - keep
      ensures file.fstclus == if empty then 0 else old(file.fstclus)
    {
      hide Shape, T, IsEoc;
      ghost var t := T();
      var next := ReadEntry(cluster);
      ghost var at := if empty then 1 else keep;
      ReleaseStep(kind, t, c, at - 1);
      if !empty {
        WriteEntry(cluster, EocValue(kind));
      } else {
        WriteEntry(cluster, 0);
        file.fstclus := 0;
        freecnt := freecnt + 1;
      }
      assert c[at..] == c[keep..][at - keep..];
      if IsEoc(kind, next) {
      } else {
        ClusterIsLegal(kind, t, next);
        TailChain(kind, t, c, at, if empty then 0 else EocValue(kind));
        var res := Unlinkn(next, c[at..]);
      }
    }

    /** The number of the cluster, counted from 1, at which a cut to len bytes happens. */
    method CutPosition(len: nat) returns (clus: nat)
      requires geo.bpc > 0
      ensures clus == if len == 0 then 1 else Ceil(len, geo.bpc)
    {
      clus := len / geo.bpc;
      if len % geo.bpc != 0 || len == 0 {
        clus := clus + 1;
      }
      CeilByDivision(len, geo.bpc);
    }

    /** Cuts a file to len bytes. */
    method Truncate(file: File, ghost f: nat, len: nat) returns (res: int)
      requires Valid() && FileOk(file, f)
      modifies this`freecnt, this`files, fat, file
      ensures Valid() && FileOk(file, f) && disk == old(disk)
      ensures len >= old(file.size) ==> res == len && Abs() == old(Abs()) && file.size == old(file.size)
      ensures len < old(file.size) && old(files[f]) == [] ==>
                res == -1 && Abs() == old(Abs()) && file.size == old(file.size)
      ensures len < old(file.size) && old(files[f]) != [] ==>
                && res == 0 && file.size == len
                && Enabled(old(Abs()), Cut(f, Ceil(len, geo.bpc)))
                && Abs() == Apply(old(Abs()), Cut(f, Ceil(len, geo.bpc)))
                && FileBytes(geo, disk, files[f], len) == old(FileBytes(geo, disk, files[f], file.size))[..len]
    {
      if len >= file.size {
        return len;
      }
      var clus := CutPosition(len);
      if files[f] != [] { ClusterIsLegal(kind, T(), files[f][0]); }
      if !LegalClus(kind, file.fstclus) {
        return -1;
      }
      CeilLeast(len, geo.bpc, |files[f]|);
      CeilBounds(len, geo.bpc);
      TruncatedFile(geo, disk, files[f], Ceil(len, geo.bpc), file.size, len);
      CutFile(file, f, len, clus, Ceil(len, geo.bpc));
      return 0;
    }

    /** The part of Truncate that changes the volume. */
    method CutFile(file: File, ghost f: nat, len: nat, clus: nat, ghost keep: nat)
      requires Valid() && FileOk(file, f) && files[f] != []
      requires keep <= |files[f]| && len <= Span(keep, geo.bpc)
      requires len == 0 <==> keep == 0
      requires clus == if len == 0 then 1 else keep
      modifies this`freecnt, this`files, fat, file
      ensures Valid() && FileOk(file, f) && file.size == len
      ensures Enabled(old(Abs()), Cut(f, keep))
      ensures Abs() == Apply(old(Abs()), Cut(f, keep))
    {
      hide Valid, Inv, Shape, T, Good, HintOk, GeoOk, CacheOk, CutTable, IsChain, IsFree, LegalClus, Span;
      ValidParts();
      LastIsCluster(Abs(), f);
      ghost var v, c := Abs(), files[f];
      ghost var cache := freeclus[fstfclus..fclusz];
      CutGood(v, f, keep);
      CutKeepsFree(kind, v.t, c, keep);
      var cluster := Walk(file.fstclus, clus - 1, c);
      CutChainAt(file, c, keep, cluster, len == 0);
      files := files[f := c[..keep]];
      CacheKept(v.t, cache, 0);
      ValidFromGood();
      ZeroIsFree(kind);
      file.size := len;
    }

    /** Deletes a file: its chain is released and its directory entry erased. */
    method Delete(file: File, ghost f: nat) returns (res: int)
      requires Valid() && FileOk(file, f)
      modifies this`freecnt, this`files, fat
      ensures Valid() && disk == old(disk)
      ensures IsBad(kind, file.fstclus) ==> res == -1 && Abs() == old(Abs())
      ensures !IsBad(kind, file.fstclus) ==> res == 0 && Abs() == Apply(old(Abs()), Drop(f))
    {
      hide Valid, Inv, Shape, T, Good, HintOk, GeoOk, CacheOk, IsChain, IsFree, IsBad, LegalClus;
      ValidParts();
      DropFacts(Abs(), f);
      ghost var v := Abs();
      ghost var cache := freeclus[fstfclus..fclusz];
      res := Unlinkn(file.fstclus, files[f]);
      if res != 0 {
        ValidFromGood();
        return -1;
      }
      files := files - {f};
      CacheKept(v.t, cache, 0);
      ValidFromGood();
    }

    lemma DropFacts(v: Vol, f: nat)
      requires Good(v) && f in v.files
      ensures Good(Apply(v, Drop(f)))
      ensures v.files[f] != [] ==>
                IsChain(v.k, v.t, v.files[f]) && LegalClus(v.k, v.files[f][0]) && !IsBad(v.k, v.files[f][0])
      ensures v.files[f] == [] ==> Apply(v, Drop(f)) == v.(files := v.files - {f})
      ensures forall x: nat :: IsCluster(v.t, x) && IsFree(v.k, v.t[x]) ==> IsFree(v.k, Apply(v, Drop(f)).t[x])
    {
      var c := v.files[f];
      DropGood(v, f);
      if c != [] {
        ClusterIsLegal(v.k, v.t, c[0]);
        CutKeepsFree(v.k, v.t, c, 0);
        assert c[0..] == c;
      }
    }

    // ---- file data ----

    /** Writes bytes inside a cluster (lseek and writen). */
    method PutBytes(cluster: nat, offset: nat, b: seq<Byte>)
      requires GeoOk(geo, disk) && OnDisk(geo, cluster) && offset + |b| <= geo.bpc
      modifies this`disk
      ensures disk == Poke(geo, old(disk), cluster, offset, b)
      ensures old(Valid()) ==> Valid()
      ensures old(Shape()) ==> Shape() && Abs() == old(Abs())
    {
      OffsetOnDisk(geo, disk, cluster);
      ByteOffsetFormula(geo, cluster, offset);
      var off := (cluster - 2) * geo.bpc + geo.fdb + offset;
      disk := disk[..off] + b + disk[off + |b|..];
    }

    /** The cluster after position j of file f; past the end of the chain a new one is linked, 0 when there is none. */
    method NextForWrite(c: nat, ghost f: nat, ghost j: nat) returns (n: nat)
      requires Valid() && f in files && j < |files[f]| && c == files[f][j]
      modifies this`freecnt, this`nextfree, this`fclusz, this`fstfclus, this`files, freeclus, fat
      ensures Valid()
      ensures n != 0 ==> f in files && j + 1 < |files[f]| && files[f][j + 1] == n
      ensures n == 0 <==> j + 1 == old(|files[f]|) && old(freecnt) == 0
      ensures n == 0 || j + 1 < old(|files[f]|) ==> Abs() == old(Abs())
      ensures n != 0 && j + 1 == old(|files[f]|) ==>
                Enabled(old(Abs()), Grow(f, n)) && Abs() == Apply(old(Abs()), Grow(f, n))
    {
      n := ReadEntry(c);
      ReleaseStep(kind, T(), files[f], j);
      if IsEoc(kind, n) {
        n := LinkNew(c, f);
      }
    }

    /** The offset handed back by a write that fails for lack of room: where its last piece started. */
    static function FailOffset(bpc: nat, offset0: nat, done: nat): nat {
      var start := if offset0 == bpc then 0 else offset0;
      if done > 0 && start + done == bpc then start else 0
    }

    /**
      The loop of fat_write_data, from a position inside a cluster; start is the
      offset at which the last piece was written.
     */
    method WriteLoop(cluster0: nat, offset0: nat, buf: seq<Byte>, ghost f: nat, ghost v0: Vol, ghost w0: Cursor,
                     ghost p: nat)
      returns (cluster: nat, offset: nat, start: nat, done: nat, ghost w: Cursor)
      requires Valid() && |buf| > 0 && offset0 < geo.bpc
      requires w0.cluster == cluster0 && w0.offset == offset0 && w0.done == 0
      requires Progress(geo, v0, disk, Abs(), disk, f, p, buf, w0)
      modifies this, freeclus, fat
      ensures Valid() && Progress(geo, v0, old(disk), Abs(), disk, f, p, buf, w)
      ensures w.cluster == cluster && w.offset == offset && w.done == done && 0 < offset && 0 < done <= |buf|
      ensures done < |buf| ==> freecnt == 0 && w.j == |files[f]| - 1 && offset == geo.bpc
      ensures done < |buf| ==> start == FailOffset(geo.bpc, offset0, done)
    {
      hide Valid, Inv, Shape, T, Progress, Good, Enabled, Apply, GeoOk;
      cluster, offset, start, done, w := cluster0, offset0, offset0, 0, w0;
      while true
        invariant Valid() && Progress(geo, v0, old(disk), Abs(), disk, f, p, buf, w)
        invariant w.cluster == cluster && w.offset == offset && w.done == done && offset < geo.bpc && done < |buf|
        invariant start == offset == if done == 0 then offset0 else 0
        invariant done > 0 ==> offset0 + done >= geo.bpc
        decreases |buf| - done
      {
        var numbytes := Min(geo.bpc - offset, |buf| - done);
        AbsGood();
        ProgressFacts(geo, v0, old(disk), Abs(), disk, f, p, buf, w);
        ProgressWrite(geo, v0, old(disk), Abs(), disk, f, p, buf, w, numbytes);
        PutBytes(cluster, offset, buf[done..done + numbytes]);
        offset, done := offset + numbytes, done + numbytes;
        w := w.(offset := offset, done := done);
        if done == |buf| {
          break;
        }
        ghost var v := Abs();
        var n := NextForWrite(cluster, f, w.j);
        if n == 0 {
          break;
        }
        w := ProgressNext(geo, v0, old(disk), v, Abs(), disk, f, p, buf, w, n);
        cluster, offset, start := n, 0, 0;
      }
    }

    /** DIR_FileSize keeps 32 bits of the position when it grows. */
    static function GrownSize(size: nat, position: nat): nat {
      if size < position then position % 0x1_0000_0000 else size
    }

    method GrowFileSize(file: File?, n: nat)
      modifies file
      ensures file != null ==> file.curAbsOff == old(file.curAbsOff) + n && file.fstclus == old(file.fstclus)
      ensures file != null ==> file.size == GrownSize(old(file.size), file.curAbsOff)
    {
      if file != null {
        file.curAbsOff := file.curAbsOff + n;
        if file.size < file.curAbsOff {
          file.size := file.curAbsOff % 0x1_0000_0000;
        }
      }
    }

    /** Settles the position behind the last byte written: a full cluster moves on if the chain does. */
    method Settle(cluster0: nat, offset0: nat, ghost f: nat, ghost j0: nat)
      returns (cluster: nat, offset: nat, ghost j: nat)
      requires Valid() && f in files && j0 < |files[f]| && cluster0 == files[f][j0] && offset0 <= geo.bpc
      ensures At(geo, files[f], j, cluster, offset, Span(j0, geo.bpc) + offset0) && (j == j0 || j == j0 + 1)
    {
      cluster, offset, j := cluster0, offset0, j0;
      if offset >= geo.bpc {
        var next := ReadEntry(cluster);
        ReleaseStep(kind, T(), files[f], j);
        if !IsEoc(kind, next) {
          cluster, offset, j := next, 0, j + 1;
        }
      }
    }

    /** What a write of buf at position p leaves behind; room is where the last free cluster ends. */
    ghost predicate WriteResult(v0: Vol, disk0: seq<Byte>, f: nat, p: nat, room: nat, buf: seq<Byte>,
                                r: int, cluster: nat, offset: nat, w: Cursor)
      requires Shape()
      reads this, fat
    {
      && Progress(geo, v0, disk0, Abs(), disk, f, p, buf, w)
      && p <= room && w.done == Min(|buf|, room - p)
      && r == (if p == room then -1 else if buf == [] then -2 else if w.done == |buf| then |buf| else -1)
      && (r >= 0 ==> At(geo, files[f], w.j, cluster, offset, p + |buf|))
      && (r == -1 ==> IsEoc(kind, cluster))
      && (buf != [] && w.added != [] ==> Span(|files[f]| - 1, geo.bpc) < p + w.done)
    }

    /** A write that starts just behind a cluster moves to the next one first, linking a new one if need be. */
    method EnterCluster(cluster0: nat, offset0: nat, ghost buf: seq<Byte>, ghost f: nat, ghost idx: nat)
      returns (ok: bool, cluster: nat, offset: nat, ghost w: Cursor)
      requires Valid() && f in files && idx < |files[f]| && cluster0 == files[f][idx] && offset0 <= geo.bpc
      modifies this`freecnt, this`nextfree, this`fclusz, this`fstfclus, this`files, freeclus, fat
      ensures Valid() && f in old(files)
      ensures w == Cursor(w.j, cluster, offset, 0, w.added)
      ensures Progress(geo, old(Abs()), disk, Abs(), disk, f, Span(idx, geo.bpc) + offset0, buf, w)
      ensures var p, room := Span(idx, geo.bpc) + offset0, Span(old(|files[f]| + freecnt), geo.bpc);
              && (ok ==> offset < geo.bpc && p < room)
              && (!ok ==> p == room && w.added == [] && f in files && files[f] != [] && cluster == Last(files[f]))
      ensures ok ==> offset == if offset0 == geo.bpc then 0 else offset0
    {
      hide Valid, Inv, Shape, T, Progress, Good, Enabled, Apply, GeoOk;
      AbsGood();
      ok, cluster, offset, w := true, cluster0, offset0, Cursor(idx, cluster0, offset0, 0, []);
      ghost var v0, p := Abs(), Span(idx, geo.bpc) + offset0;
      ProgressStart(geo, v0, disk, f, p, buf, w);
      if offset == geo.bpc {
        var n := NextForWrite(cluster, f, idx);
        if n == 0 {
          ok := false;
        } else {
          w := ProgressNext(geo, v0, disk, v0, Abs(), disk, f, p, buf, w, n);
          cluster, offset := n, 0;
        }
      }
      ProgressRoom(geo, v0, disk, Abs(), disk, f, p, buf, w);
    }

    /** What the table holds for the last cluster of a file. */
    method AfterLast(c: nat, ghost f: nat) returns (n: nat)
      requires Valid() && f in files && files[f] != [] && c == Last(files[f])
      ensures IsEoc(kind, n)
    {
      hide Valid, Inv, Shape, T, IsEoc;
      ChainNext(f, |files[f]| - 1);
      n := ReadEntry(c);
    }

    /** The volume side of fat_write_data, for an offset that is not too big. */
    method WriteVolume(cluster0: nat, offset0: nat, buf: seq<Byte>, ghost f: nat, ghost idx: nat)
      returns (r: int, cluster: nat, offset: nat, done: nat, ghost w: Cursor)
      requires Valid() && f in files && idx < |files[f]| && cluster0 == files[f][idx] && offset0 <= geo.bpc
      modifies this, freeclus, fat
      ensures Valid() && done == w.done
      ensures WriteResult(old(Abs()), old(disk), f, Span(idx, geo.bpc) + offset0,
                          Span(old(|files[f]| + freecnt), geo.bpc), buf, r, cluster, offset, w)
      ensures r == -1 ==> offset == FailOffset(geo.bpc, offset0, done)
    {
      hide Valid, Inv, Shape, T, Progress, Good, Enabled, Apply, GeoOk, IsEoc, At, Span;
      ghost var v0, p := Abs(), Span(idx, geo.bpc) + offset0;
      var ok;
      ok, cluster, offset, w := EnterCluster(cluster0, offset0, buf, f, idx);
      if !ok {
        cluster := AfterLast(cluster, f);
        return -1, cluster, 0, 0, w;
      }
      if |buf| == 0 {
        return -2, cluster, offset, 0, w;
      }
      var start;
      cluster, offset, start, done, w := WriteLoop(cluster, offset, buf, f, v0, w, p);
      ProgressFacts(geo, v0, old(disk), Abs(), disk, f, p, buf, w);
      ProgressRoom(geo, v0, old(disk), Abs(), disk, f, p, buf, w);
      if done < |buf| {
        cluster := AfterLast(cluster, f);
        return -1, cluster, start, done, w;
      }
      ghost var w1, j := w, w.j;
      cluster, offset, j := Settle(cluster, offset, f, w.j);
      w := w.(j := j, cluster := cluster, offset := offset);
      ProgressSettle(geo, v0, old(disk), Abs(), disk, f, p, buf, w1, w);
      return |buf|, cluster, offset, done, w;
    }

    /**
      Writes buf to file f from byte `offset0` of its cluster number idx.  The
      number of bytes written is all of them, or all that the free clusters can
      take, and then the result is -1.
     */
    method WriteData(file: File?, cluster0: nat, offset0: nat, buf: seq<Byte>, ghost f: nat, ghost idx: nat)
      returns (r: int, cluster: nat, offset: nat, ghost w: Cursor)
      requires Valid() && f in files && idx < |files[f]| && cluster0 == files[f][idx]
      modifies this, freeclus, fat, file
      ensures Valid()
      ensures offset0 > geo.bpc ==> r == -1 && Abs() == old(Abs()) && disk == old(disk) && w.done == 0
      ensures offset0 > geo.bpc ==> cluster == cluster0 && offset == offset0
      ensures offset0 <= geo.bpc && r == -1 ==> offset == FailOffset(geo.bpc, offset0, w.done)
      ensures offset0 <= geo.bpc ==>
                WriteResult(old(Abs()), old(disk), f, Span(idx, geo.bpc) + offset0,
                            Span(old(|files[f]| + freecnt), geo.bpc), buf, r, cluster, offset, w)
      ensures file != null ==> file.curAbsOff == old(file.curAbsOff) + w.done && file.fstclus == old(file.fstclus)
      ensures file != null ==>
                file.size == if w.done == 0 then old(file.size) else GrownSize(old(file.size), file.curAbsOff)
    {
      hide *;
      if offset0 > geo.bpc {
        return -1, cluster0, offset0, Cursor(0, 0, 0, 0, []);
      }
      var done;
      r, cluster, offset, done, w := WriteVolume(cluster0, offset0, buf, f, idx);
      if done > 0 {
        GrowFileSize(file, done);
      }
    }

    /** Reads bytes inside a cluster (lseek and readn). */
    method GetBytes(cluster: nat, offset: nat, n: nat) returns (b: seq<Byte>)
      requires GeoOk(geo, disk) && OnDisk(geo, cluster) && offset + n <= geo.bpc
      ensures b == Block(geo, disk, cluster)[offset..offset + n]
    {
      OffsetOnDisk(geo, disk, cluster);
      ByteOffsetFormula(geo, cluster, offset);
      var off := (cluster - 2) * geo.bpc + geo.fdb + offset;
      SliceOfSlice(disk, ByteOffset(geo, cluster, 0), geo.bpc, offset, n);
      b := disk[off..off + n];
    }

    /** The loop of fat_read_data; left bytes of the current cluster may be read before moving on. */
    method ReadLoop(cluster0: nat, offset0: nat, left0: nat, count: nat, ghost f: nat, ghost j0: nat, ghost start: nat)
      returns (out: seq<Byte>, cluster: nat, offset: nat, ghost j: nat)
      requires Valid() && f in files && j0 < |files[f]| && cluster0 == files[f][j0] && count > 0
      requires Reading(geo, Content(geo, disk, files[f]), start, [], j0, offset0, left0)
      ensures Has(Content(geo, disk, files[f]), start, out) && |out| <= count
      ensures |out| < count ==> start + |out| == Span(|files[f]|, geo.bpc)
      ensures if start + count < Span(|files[f]|, geo.bpc)
              then At(geo, files[f], j, cluster, offset, start + count) && offset < geo.bpc
              else IsEoc(kind, cluster)
    {
      hide Valid, Inv, Shape, T, Reading, Has, Content, IsEoc;
      out, cluster, offset, j := [], cluster0, offset0, j0;
      var left := left0;
      ghost var s := Content(geo, disk, files[f]);
      while true
        invariant j < |files[f]| && cluster == files[f][j] && |out| < count
        invariant Reading(geo, s, start, out, j, offset, left)
        decreases |files[f]| - j
      {
        var numbytes := Min(left, count - |out|);
        ChainNext(f, j);
        ReadingRoom(f, start, out, j, offset, left);
        var b := GetBytes(cluster, offset, numbytes);
        HasBlock(geo, disk, files[f], j, offset, numbytes);
        ReadingMore(geo, s, start, out, j, offset, left, b);
        out, offset, left := out + b, offset + numbytes, left - numbytes;
        ReadingPosition(geo, s, start, out, j, offset, left, |files[f]|);
        if |out| < count {
          cluster := ReadEntry(cluster);
          if IsEoc(kind, cluster) {
            return;
          }
          ReadingNext(geo, s, start, out, j, offset);
          offset, left, j := 0, geo.bpc, j + 1;
        } else {
          if offset >= geo.bpc {
            cluster := ReadEntry(cluster);
            offset, j := 0, j + 1;
          }
          return;
        }
      }
    }

    lemma ReadingRoom(f: nat, start: nat, out: seq<Byte>, j: nat, offset: nat, left: nat)
      requires Valid() && f in files && Reading(geo, Content(geo, disk, files[f]), start, out, j, offset, left)
      ensures offset + left <= geo.bpc && GeoOk(geo, disk) && geo.bpc > 0
    {
    }

    /**
      Reads count bytes of file f from byte `offset0` of its cluster number idx.
      The result is the slice of the file's content that starts at ReadStart.
     */
    method ReadData(cluster0: nat, offset0: nat, count: nat, ghost f: nat, ghost idx: nat)
      returns (r: int, out: seq<Byte>, cluster: nat, offset: nat, ghost j: nat)
      requires Valid() && f in files && idx < |files[f]| && cluster0 == files[f][idx]
      ensures offset0 > geo.bpc || (offset0 == geo.bpc && idx + 1 == |files[f]|) ==> r == -1 && out == []
      ensures offset0 < geo.bpc || (offset0 == geo.bpc && idx + 1 < |files[f]|) ==>
                var s, start := Content(geo, disk, files[f]), ReadStart(geo, idx, offset0);
                && start <= |s|
                && out == s[start..start + Min(count, |s| - start)]
                && r == (if count == 0 then -2 else |out|)
                && (count > 0 ==> if start + count < |s|
                                  then At(geo, files[f], j, cluster, offset, start + count) && offset < geo.bpc
                                  else IsEoc(kind, cluster))
    {
      hide Valid, Inv, Shape, T, Content, IsEoc;
      cluster, offset, out, j := cluster0, offset0, [], idx;
      var left := geo.bpc - offset;
      if offset > geo.bpc {
        return -1, out, cluster, offset, j;
      }
      ChainNext(f, idx);
      ghost var s := Content(geo, disk, files[f]);
      if offset == geo.bpc {
        cluster := ReadEntry(cluster);
        if IsEoc(kind, cluster) {
          return -1, out, cluster, offset, j;
        }
        ChainNext(f, idx + 1);
        offset, j := 0, idx + 1;
      }
      ghost var start := ReadStart(geo, idx, offset0);
      if count == 0 {
        return -2, out, cluster, offset, j;
      }
      assert Reading(geo, s, start, [], j, offset, left);
      out, cluster, offset, j := ReadLoop(cluster, offset, left, count, f, j, start);
      return |out|, out, cluster, offset, j;
    }

    lemma ChainNext(f: nat, j: nat)
      requires Valid() && f in files && j < |files[f]|
      ensures OnDisk(geo, files[f][j])
      ensures T()[files[f][j]] < Limit(kind)
      ensures if j == |files[f]| - 1 then IsEoc(kind, T()[files[f][j]])
              else !IsEoc(kind, T()[files[f][j]]) && T()[files[f][j]] == files[f][j + 1]
      ensures Span(j, geo.bpc) + geo.bpc <= Span(|files[f]|, geo.bpc)
    {
      ReleaseStep(kind, T(), files[f], j);
      SpanLess(j, |files[f]|, geo.bpc);
    }

    /** How many of n bytes fit behind the file position, in the clusters of the file and the free ones. */
    ghost function FitsIn(file: File, f: nat, n: nat): nat
      requires f in files
      reads this, file
    {
      var room := Span(|files[f]| + freecnt, geo.bpc);
      if room < file.curAbsOff then 0 else Min(n, room - file.curAbsOff)
    }

    /**
      A write at the file position puts the bytes for which there is room over
      what the clusters held there.  When the position is not behind the end of
      the file and the new end fits in 32 bits, that splices them into the file
      and sets its size.  It leaves every other file alone.
     */
    method WriteFile(file: File, cluster0: nat, offset0: nat, buf: seq<Byte>, ghost f: nat, ghost idx: nat)
      returns (r: int)
      requires Valid() && FileOk(file, f) && idx < |files[f]| && cluster0 == files[f][idx]
      requires offset0 <= geo.bpc && file.curAbsOff == Span(idx, geo.bpc) + offset0
      modifies this, freeclus, fat, file
      ensures Valid() && FileOk(file, f) && old(files[f]) <= files[f]
      ensures old(file.curAbsOff) <= Span(old(|files[f]| + freecnt), geo.bpc)
      ensures buf == [] ==> r < 0
      ensures buf != [] ==> r == if old(FitsIn(file, f, |buf|)) == |buf| then |buf| else -1
      ensures var done := old(FitsIn(file, f, |buf|));
              && file.curAbsOff == old(file.curAbsOff) + done
              && file.size == (if done == 0 then old(file.size) else GrownSize(old(file.size), file.curAbsOff))
              && Has(Content(geo, disk, files[f]), old(file.curAbsOff), buf[..done])
              && Content(geo, disk, files[f])
              == WriteAt(Content(geo, old(disk), files[f]), old(file.curAbsOff), buf[..done])
      ensures old(file.curAbsOff <= file.size) && file.curAbsOff < 0x1_0000_0000 ==>
                && file.size == Max(old(file.size), file.curAbsOff)
                && FileBytes(geo, disk, files[f], file.size)
                == Splice(old(FileBytes(geo, disk, files[f], file.size)), old(file.curAbsOff),
                          buf[..old(FitsIn(file, f, |buf|))])
      ensures forall h :: h in old(files) && h != f ==>
                && h in files && files[h] == old(files[h])
                && Content(geo, disk, files[h]) == old(Content(geo, disk, files[h]))
    {
      hide Valid, Inv, Shape, T, Progress, Good, Content, At, FileBytes, Splice, IsEoc, LegalClus, GeoOk, Span, WriteAt;
      ghost var v0, disk0, p, size := Abs(), disk, file.curAbsOff, file.size;
      ghost var w;
      var cluster, offset;
      r, cluster, offset, w := WriteData(file, cluster0, offset0, buf, f, idx);
      AbsGood();
      forall h | h in v0.files && h != f
        ensures h in files && files[h] == v0.files[h]
        ensures Content(geo, disk, files[h]) == Content(geo, disk0, v0.files[h])
      {
        WriteSparesOthers(geo, v0, disk0, Abs(), disk, f, p, buf, w, h);
      }
      WriteKeepsHead(geo, v0, disk0, Abs(), disk, f, p, buf, w);
      WriteFits(geo, v0, disk0, Abs(), disk, f, p, buf, w, size);
      if p <= size {
        WriteSplices(geo, v0, disk0, Abs(), disk, f, p, buf, w, size);
      }
    }

    /**
      What was written is what is read back from the same place, unless that is
      given as the end of a cluster: a read that starts there starts late.
     */
    method WriteThenRead(file: File, cluster0: nat, offset0: nat, buf: seq<Byte>, ghost f: nat, ghost idx: nat)
      returns (r: int, out: seq<Byte>)
      requires Valid() && FileOk(file, f) && idx < |files[f]| && cluster0 == files[f][idx]
      requires offset0 <= geo.bpc && file.curAbsOff == Span(idx, geo.bpc) + offset0
      modifies this, freeclus, fat, file
      ensures Valid()
      ensures buf != [] ==>
                (r == |buf| <==> old(file.curAbsOff) + |buf| <= Span(old(|files[f]| + freecnt), geo.bpc))
      ensures buf != [] && r == |buf| && offset0 < geo.bpc ==> out == buf
      ensures buf != [] && r == |buf| && offset0 == geo.bpc ==>
                f in files &&
                var s, start := Content(geo, disk, files[f]), Span(idx + 2, geo.bpc);
                start <= |s| && out == s[start..start + Min(|buf|, |s| - start)]
    {
      hide Valid, Inv, Shape, T, Content, At, FileBytes, Splice, IsEoc, LegalClus, Span, WriteAt, GeoOk, Good, IsChain;
      out := [];
      r := WriteFile(file, cluster0, offset0, buf, f, idx);
      if buf != [] && r == |buf| {
        var r1, cluster, offset;
        ghost var j;
        BpcPositive();
        if offset0 == geo.bpc { BehindCluster(files[f], idx, |buf|); }
        r1, out, cluster, offset, j := ReadData(cluster0, offset0, |buf|, f, idx);
      }
    }

    lemma BpcPositive()
      requires Valid()
      ensures geo.bpc > 0
    {}

    /** Bytes behind a cluster of a chain are in a later one. */
    lemma BehindCluster(c: seq<nat>, idx: nat, n: nat)
      requires geo.bpc > 0 && n > 0 && idx < |c| && Span(idx, geo.bpc) + geo.bpc + n <= Span(|c|, geo.bpc)
      ensures idx + 1 < |c|
    {}
  }
}
