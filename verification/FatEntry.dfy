/**
  The cell codec of a FAT: how a 12-, 16- or 28-bit entry is read from and
  written to the bytes of the table.  Everything above this module sees the
  table as a sequence of numbers; the lemmas here justify that view.
 */
module FatEntry {

  type Byte = x: int | 0 <= x < 256

  datatype FatType = FAT12 | FAT16 | FAT32

  /** One more than the largest value an entry can hold. */
  function Limit(k: FatType): (r: nat)
    ensures r >= 0x1000
  {
    match k case FAT12 => 0x1000 case FAT16 => 0x10000 case FAT32 => 0x1000_0000
  }

  /** The bits of v that an entry keeps. */
  function Trunc(k: FatType, v: nat): (r: nat)
    ensures r < Limit(k)
    ensures v < Limit(k) ==> r == v
  {
    match k case FAT12 => v % 0x1000 case FAT16 => v % 0x10000 case FAT32 => v % 0x1000_0000
  }

  predicate IsFree(k: FatType, v: nat) {
    Trunc(k, v) == 0
  }

  predicate IsEoc(k: FatType, v: nat) {
    match k
    case FAT12 => v >= 0x0FF8
    case FAT16 => v >= 0xFFF8
    case FAT32 => v % 0x1000_0000 >= 0x0FFF_FFF8
  }

  function BadValue(k: FatType): nat {
    match k case FAT12 => 0x0FF7 case FAT16 => 0xFFF7 case FAT32 => 0x0FFF_FFF7
  }

  predicate IsBad(k: FatType, v: nat) {
    v == BadValue(k)
  }

  predicate LegalClus(k: FatType, v: nat) {
    !(IsEoc(k, v) || IsFree(k, v) || IsBad(k, v))
  }

  function EocValue(k: FatType): nat {
    match k case FAT12 => 0x0FFF case FAT16 => 0xFFFF case FAT32 => 0x0FFF_FFF8
  }

  /** The number of bytes that hold the entries 0..dataClusters+1. */
  function TableSize(k: FatType, dataClusters: nat): nat {
    match k
    case FAT12 => (dataClusters + 2) / 2 * 3 + (if (dataClusters + 2) % 2 != 0 then 2 else 0)
    case FAT16 => (dataClusters + 2) * 2
    case FAT32 => (dataClusters + 2) * 4
  }

  /** The index of the first byte of entry n. */
  function EntryByte(k: FatType, n: nat): nat {
    match k case FAT12 => n * 3 / 2 case FAT16 => n * 2 case FAT32 => n * 4
  }

  /** The number of bytes that hold some bits of one entry. */
  function EntryWidth(k: FatType): nat {
    if k == FAT32 then 4 else 2
  }

  /** Every entry of the volume lies inside the bytes computed at load time, which end with the last one. */
  lemma EntryInBounds(k: FatType, dataClusters: nat, n: nat)
    requires n <= dataClusters + 1
    ensures EntryByte(k, n) + EntryWidth(k) <= TableSize(k, dataClusters)
    ensures n == dataClusters + 1 ==> EntryByte(k, n) + EntryWidth(k) == TableSize(k, dataClusters)
  {
    if k == FAT12 {
      assert n * 3 / 2 <= (dataClusters + 1) * 3 / 2;
    }
  }

  // The two bytes of a FAT12 entry, low byte first, as the entry's value.
  function Even12(b0: int, b1: int): (v: int)
    ensures 0 <= b0 < 256 ==> 0 <= v < 0x1000
  {
    b0 + 256 * (b1 % 16)
  }

  function Odd12(b0: int, b1: int): (v: int)
    ensures 0 <= b0 < 256 && 0 <= b1 < 256 ==> 0 <= v < 0x1000
  {
    b0 / 16 + b1 * 16 % 256 + 256 * (b1 / 16)
  }

  function Little(b0: int, b1: int): int { b0 + 256 * b1 }

  /** Reads entry n. */
  function Get(k: FatType, raw: seq<Byte>, n: nat): (v: nat)
    requires EntryByte(k, n) + EntryWidth(k) <= |raw|
    ensures v < Limit(k)
  {
    var i := EntryByte(k, n);
    match k
    case FAT12 => if n % 2 == 0 then Even12(raw[i], raw[i + 1]) else Odd12(raw[i], raw[i + 1])
    case FAT16 => Little(raw[i], raw[i + 1])
    case FAT32 => (Little(raw[i], raw[i + 1]) + 0x1_0000 * Little(raw[i + 2], raw[i + 3])) % 0x1000_0000
  }

  /** A number written low byte first. */
  function Number(b: seq<Byte>): nat {
    if b == [] then 0 else b[0] + 256 * Number(b[1..])
  }

  lemma NumberOf(b: seq<Byte>)
    requires 2 <= |b| <= 4
    ensures |b| == 2 ==> Number(b) == Little(b[0], b[1])
    ensures |b| == 3 ==> Number(b) == Little(b[0], Little(b[1], b[2]))
    ensures |b| == 4 ==> Number(b) == Little(b[0], Little(b[1], Little(b[2], b[3])))
  {
    assert Number(b) == b[0] + 256 * Number(b[1..]);
    assert Number(b[1..]) == b[1] + 256 * Number(b[2..]) by { assert b[1..][1..] == b[2..]; }
    if |b| > 2 { assert Number(b[2..]) == b[2] + 256 * Number(b[3..]) by { assert b[2..][1..] == b[3..]; } }
    if |b| > 3 { assert Number(b[3..]) == b[3] + 256 * Number(b[4..]) by { assert b[3..][1..] == b[4..]; } }
  }

  lemma Nibbles(b0: Byte, b1: Byte, b2: Byte)
    ensures Even12(b0, b1) + 0x1000 * Odd12(b1, b2) == Little(b0, Little(b1, b2))
  {
    assert b1 == 16 * (b1 / 16) + b1 % 16;
    assert b2 == 16 * (b2 / 16) + b2 % 16;
    assert b2 * 16 % 256 == b2 % 16 * 16;
  }

  /** The layout on the device: two neighbouring FAT12 entries are one number of three bytes, the first its low half. */
  lemma Packed12(raw: seq<Byte>, m: nat)
    requires 3 * m + 3 <= |raw|
    ensures EntryByte(FAT12, 2 * m + 1) + 2 <= |raw|
    ensures Get(FAT12, raw, 2 * m) + 0x1000 * Get(FAT12, raw, 2 * m + 1) == Number(raw[3 * m..3 * m + 3])
  {
    hide Even12, Odd12, Little, Number;
    assert EntryByte(FAT12, 2 * m) == 3 * m && EntryByte(FAT12, 2 * m + 1) == 3 * m + 1;
    assert (2 * m) % 2 == 0 && (2 * m + 1) % 2 == 1;
    NumberOf(raw[3 * m..3 * m + 3]);
    Nibbles(raw[3 * m], raw[3 * m + 1], raw[3 * m + 2]);
  }

  /** A FAT16 entry is a number of two bytes, a FAT32 entry one of four without its top four bits. */
  lemma Packed16(raw: seq<Byte>, m: nat)
    requires 2 * m + 2 <= |raw|
    ensures Get(FAT16, raw, m) == Number(raw[2 * m..2 * m + 2])
  {
    hide Little, Number;
    NumberOf(raw[2 * m..2 * m + 2]);
  }

  lemma Packed32(raw: seq<Byte>, m: nat)
    requires 4 * m + 4 <= |raw|
    ensures Get(FAT32, raw, m) == Number(raw[4 * m..4 * m + 4]) % 0x1000_0000
  {
    hide Number;
    NumberOf(raw[4 * m..4 * m + 4]);
  }

  /** The marks: a value is free when 0, the last eight are the end of a chain and the one before them is bad. */
  lemma Marks(k: FatType, v: nat)
    requires v < Limit(k)
    ensures IsFree(k, v) <==> v == 0
    ensures IsEoc(k, v) <==> Limit(k) - 8 <= v
    ensures IsBad(k, v) <==> v == Limit(k) - 9
    ensures LegalClus(k, v) <==> 0 < v < Limit(k) - 9
    ensures EocValue(k) == Limit(k) - if k == FAT32 then 8 else 1
  {}

  /** The bytes after entry n was written with v. */
  function Put(k: FatType, raw: seq<Byte>, n: nat, v: nat): (r: seq<Byte>)
    requires EntryByte(k, n) + EntryWidth(k) <= |raw|
    ensures |r| == |raw|
  {
    var i := EntryByte(k, n);
    match k
    case FAT12 =>
      var lo, hi := v % 256, v / 256 % 256;
      if n % 2 == 0 then
        raw[i := lo][i + 1 := raw[i + 1] / 16 * 16 + hi % 16]
      else
        raw[i := raw[i] % 16 + lo * 16 % 256][i + 1 := hi * 16 % 256 + lo / 16]
    case FAT16 => raw[i := v % 256][i + 1 := v / 256 % 256]
    case FAT32 =>
      var w := v % 0x1000_0000;
      raw[i := w % 256][i + 1 := w / 256 % 256][i + 2 := w / 0x1_0000 % 256][i + 3 := w / 0x100_0000 % 256]
  }

  lemma Shift4(x: nat)
    ensures x * 16 % 256 == x % 16 * 16
  {
    Remainder(x * 16, 256, x / 16, x % 16 * 16);
  }

  lemma OddNibbles(v: nat, b0: int, lo: int, hi: int)
    requires lo == v % 256 && hi == v / 256 % 256
    ensures Odd12(b0 % 16 + lo * 16 % 256, hi * 16 % 256 + lo / 16) == v % 0x1000
  {
    var l, h := lo % 16, hi % 16;
    Shift4(lo);
    Shift4(hi);
    Remainder(b0 % 16 + l * 16, 16, l, b0 % 16);
    Remainder(h * 16 + lo / 16, 16, h, lo / 16);
    Shift4(h * 16 + lo / 16);
    TwelveBits(v);
  }

  lemma TwelveBits(v: nat)
    ensures v % 256 + 256 * (v / 256 % 256 % 16) == v % 0x1000
  {
    var q, lo := v / 256, v % 256;
    var a, b := q / 16, q % 16;
    Remainder(q, 256, a / 16, 16 * (a % 16) + b);
    Remainder(16 * (a % 16) + b, 16, a % 16, b);
    Remainder(v, 0x1000, a, 256 * b + lo);
  }

  lemma Remainder(v: nat, m: nat, q: nat, r: nat)
    requires m > 0 && r < m && v == m * q + r
    ensures v % m == r && v / m == q
  {
    UniqueQuotient(m, q, r, v / m, v % m);
  }

  lemma UniqueQuotient(m: nat, q: nat, r: nat, k: nat, s: nat)
    requires r < m && s < m && m * q + r == m * k + s
    ensures q == k && r == s
  {
    if q > k {
      Apart(m, q, k);
    } else if q < k {
      Apart(m, k, q);
    }
  }

  lemma Apart(m: nat, q: nat, k: nat)
    requires q > k
    ensures m * q >= m * k + m
  {
    var d := q - k - 1;
    calc {
      m * q;
      m * (k + 1 + d);
      m * k + m + m * d;
    }
  }

  lemma SixteenBits(v: nat)
    ensures Little(v % 256, v / 256 % 256) == v % 0x1_0000
  {
    var q := v / 256;
    Remainder(v, 0x1_0000, q / 256, 256 * (q % 256) + v % 256);
  }

  lemma FourBytes(w: nat)
    requires w < 0x1_0000_0000
    ensures Little(w % 256, w / 256 % 256) + 0x1_0000 * Little(w / 0x1_0000 % 256, w / 0x100_0000 % 256) == w
  {
    SixteenBits(w);
    var h := w / 0x1_0000;
    SixteenBits(h);
    assert h / 256 == w / 0x100_0000;
  }

  lemma GetPutSame12(raw: seq<Byte>, n: nat, v: nat)
    requires EntryByte(FAT12, n) + 2 <= |raw|
    ensures Get(FAT12, Put(FAT12, raw, n, v), n) == v % 0x1000
  {
    var i := EntryByte(FAT12, n);
    var lo, hi := v % 256, v / 256 % 256;
    if n % 2 == 0 {
      var b1: int := raw[i + 1];
      assert (b1 / 16 * 16 + hi % 16) % 16 == hi % 16;
      TwelveBits(v);
    } else {
      OddNibbles(v, raw[i], lo, hi);
    }
  }

  lemma GetPutSame(k: FatType, raw: seq<Byte>, n: nat, v: nat)
    requires EntryByte(k, n) + EntryWidth(k) <= |raw|
    ensures Get(k, Put(k, raw, n, v), n) == Trunc(k, v)
  {
    match k
    case FAT12 => GetPutSame12(raw, n, v);
    case FAT16 => SixteenBits(v);
    case FAT32 => FourBytes(v % 0x1000_0000);
  }

  lemma NibblesApart(b: int, x: int)
    requires 0 <= b && 0 <= x
    ensures (b / 16 * 16 + x % 16) / 16 == b / 16
    ensures (b % 16 + x * 16 % 256) % 16 == b % 16
  {
    Shift4(x);
    Remainder(b / 16 * 16 + x % 16, 16, b / 16, x % 16);
    Remainder(b % 16 + x % 16 * 16, 16, x % 16, b % 16);
  }

  // Entries n and n+1, n even, share the byte in the middle.
  lemma Neighbours(n: nat)
    requires n % 2 == 0
    ensures EntryByte(FAT12, n + 1) == EntryByte(FAT12, n) + 1 && (n + 1) % 2 == 1
  {
    var h := n / 2;
    Remainder(n * 3, 2, 3 * h, 0);
    Remainder((n + 1) * 3, 2, 3 * h + 1, 1);
  }

  lemma NextEntryKept(raw: seq<Byte>, n: nat, v: nat)
    requires n % 2 == 0 && EntryByte(FAT12, n + 1) + 2 <= |raw|
    ensures EntryByte(FAT12, n) + 2 <= |raw|
    ensures Get(FAT12, Put(FAT12, raw, n, v), n + 1) == Get(FAT12, raw, n + 1)
  {
    hide EntryByte;
    Neighbours(n);
    var b: int, x := raw[EntryByte(FAT12, n) + 1], v / 256 % 256;
    NibblesApart(b, x);
  }

  lemma PreviousEntryKept(raw: seq<Byte>, n: nat, v: nat)
    requires n % 2 == 0 && EntryByte(FAT12, n + 1) + 2 <= |raw|
    ensures EntryByte(FAT12, n) + 2 <= |raw|
    ensures Get(FAT12, Put(FAT12, raw, n + 1, v), n) == Get(FAT12, raw, n)
  {
    hide EntryByte;
    Neighbours(n);
    NibblesApart(raw[EntryByte(FAT12, n) + 1], v % 256);
  }

  lemma GetPutOther12(raw: seq<Byte>, n: nat, v: nat, m: nat)
    requires EntryByte(FAT12, n) + 2 <= |raw| && EntryByte(FAT12, m) + 2 <= |raw| && m != n
    ensures Get(FAT12, Put(FAT12, raw, n, v), m) == Get(FAT12, raw, m)
  {
    hide Put, Even12, Odd12;
    if m == n + 1 && n % 2 == 0 {
      NextEntryKept(raw, n, v);
    } else if n == m + 1 && m % 2 == 0 {
      PreviousEntryKept(raw, m, v);
    } else {
      EntriesApart(n, m);
      PutElsewhere(FAT12, raw, n, v, EntryByte(FAT12, m));
      PutElsewhere(FAT12, raw, n, v, EntryByte(FAT12, m) + 1);
    }
  }

  /** Bytes outside an entry are not written. */
  lemma PutElsewhere(k: FatType, raw: seq<Byte>, n: nat, v: nat, i: nat)
    requires EntryByte(k, n) + EntryWidth(k) <= |raw|
    requires i < |raw| && (i < EntryByte(k, n) || EntryByte(k, n) + EntryWidth(k) <= i)
    ensures Put(k, raw, n, v)[i] == raw[i]
  {
  }

  /** Writing entry n leaves every other entry alone, also where FAT12 entries share a byte. */
  lemma GetPutOther(k: FatType, raw: seq<Byte>, n: nat, v: nat, m: nat)
    requires EntryByte(k, n) + EntryWidth(k) <= |raw|
    requires EntryByte(k, m) + EntryWidth(k) <= |raw|
    requires m != n
    ensures Get(k, Put(k, raw, n, v), m) == Get(k, raw, m)
  {
    if k == FAT12 {
      GetPutOther12(raw, n, v, m);
    } else {
      forall i | EntryByte(k, m) <= i < EntryByte(k, m) + EntryWidth(k) ensures Put(k, raw, n, v)[i] == raw[i] {
        PutElsewhere(k, raw, n, v, i);
      }
    }
  }

  lemma EntriesApart(n: nat, m: nat)
    requires m != n && !(m == n + 1 && n % 2 == 0) && !(n == m + 1 && m % 2 == 0)
    ensures n * 3 / 2 + 1 < m * 3 / 2 || m * 3 / 2 + 1 < n * 3 / 2
  {
    assert n * 3 / 2 == n + n / 2 && m * 3 / 2 == m + m / 2;
  }

  /** The first m entries as numbers. */
  ghost function Entries(k: FatType, raw: seq<Byte>, dataClusters: nat, m: nat): (t: seq<nat>)
    requires |raw| == TableSize(k, dataClusters) && m <= dataClusters + 2
    ensures |t| == m
    ensures forall n :: 0 <= n < m ==> t[n] < Limit(k)
  {
    if m == 0 then [] else
      EntryInBounds(k, dataClusters, m - 1);
      Entries(k, raw, dataClusters, m - 1) + [Get(k, raw, m - 1)]
  }

  /** The table as numbers. */
  ghost function Table(k: FatType, raw: seq<Byte>, dataClusters: nat): (t: seq<nat>)
    requires |raw| == TableSize(k, dataClusters)
    ensures |t| == dataClusters + 2
    ensures forall n :: 0 <= n < |t| ==> t[n] < Limit(k)
  {
    Entries(k, raw, dataClusters, dataClusters + 2)
  }

  lemma {:induction false} EntriesAt(k: FatType, raw: seq<Byte>, dataClusters: nat, m: nat, n: nat)
    requires |raw| == TableSize(k, dataClusters) && n < m <= dataClusters + 2
    ensures EntryByte(k, n) + EntryWidth(k) <= |raw|
    ensures Entries(k, raw, dataClusters, m)[n] == Get(k, raw, n)
  {
    EntryInBounds(k, dataClusters, n);
    if n < m - 1 {
      EntriesAt(k, raw, dataClusters, m - 1, n);
    }
  }

  lemma TableAt(k: FatType, raw: seq<Byte>, dataClusters: nat, n: nat)
    requires |raw| == TableSize(k, dataClusters) && n <= dataClusters + 1
    ensures EntryByte(k, n) + EntryWidth(k) <= |raw|
    ensures Table(k, raw, dataClusters)[n] == Get(k, raw, n)
  {
    EntriesAt(k, raw, dataClusters, dataClusters + 2, n);
  }

  /** The packed bytes refine a map from cluster to entry. */
  lemma PutRefinesUpdate(k: FatType, raw: seq<Byte>, dataClusters: nat, n: nat, v: nat)
    requires |raw| == TableSize(k, dataClusters)
    requires n <= dataClusters + 1
    ensures EntryByte(k, n) + EntryWidth(k) <= |raw|
    ensures Table(k, Put(k, raw, n, v), dataClusters) == Table(k, raw, dataClusters)[n := Trunc(k, v)]
  {
    EntryInBounds(k, dataClusters, n);
    var after := Put(k, raw, n, v);
    forall m | 0 <= m < dataClusters + 2
      ensures Table(k, after, dataClusters)[m] == Table(k, raw, dataClusters)[n := Trunc(k, v)][m]
    {
      TableAt(k, raw, dataClusters, m);
      TableAt(k, after, dataClusters, m);
      if m == n {
        GetPutSame(k, raw, n, v);
      } else {
        GetPutOther(k, raw, n, v, m);
      }
    }
  }
}
