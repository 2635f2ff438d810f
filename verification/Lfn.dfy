/**
  Long file names: a name is cut into directory records of 13 units, stored in
  reverse, numbered and tied to the short entry by its checksum; and read back.
 */
module Lfn {
  import opened FatEntry
  import opened Unicode
  import opened Strings
  import opened Wrappers

  const ATTR_LONG_NAME := 0x0F
  const LFN_LASTENTRY := 0x40

  datatype Entry = Entry(ord: Byte, name1: seq<Word>, attr: Byte, typ: Byte, chksum: Byte,
                         name2: seq<Word>, fstclus: Word, name3: seq<Word>)

  type LfnEntry = e: Entry | |e.name1| == 5 && |e.name2| == 6 && |e.name3| == 2 witness BLANK

  /** A record after memset with 0xFF. */
  const BLANK := Entry(0xFF, seq(5, _ => 0xFFFF), 0xFF, 0xFF, 0xFF, seq(6, _ => 0xFFFF), 0xFFFF, seq(2, _ => 0xFFFF))

  /** The 13 units of a record. */
  function Chars(e: LfnEntry): (r: seq<Word>)
    ensures |r| == 13
  {
    e.name1 + e.name2 + e.name3
  }

  function FetchChar(e: LfnEntry, n: nat): (c: Word)
    ensures c == Chars(e)[n % 13]
  {
    var i := n % 13;
    if i <= 4 then e.name1[i] else if i <= 10 then e.name2[i - 5] else e.name3[i - 11]
  }

  function SetChar(e: LfnEntry, c: Word, n: nat): (r: LfnEntry)
    ensures Chars(r) == Chars(e)[n % 13 := c]
    ensures r.ord == e.ord && r.attr == e.attr && r.chksum == e.chksum
  {
    var i := n % 13;
    if i <= 4 then e.(name1 := e.name1[i := c])
    else if i <= 10 then e.(name2 := e.name2[i - 5 := c])
    else e.(name3 := e.name3[i - 11 := c])
  }

  /** The units of a chain in the order of the name: the record written first comes last. */
  ghost function Flat(b: seq<LfnEntry>): (r: seq<Word>)
    ensures |r| == 13 * |b|
  {
    if b == [] then [] else Flat(b[1..]) + Chars(b[0])
  }

  lemma {:induction false} FlatAt(b: seq<LfnEntry>, q: nat, r: nat)
    requires q < |b| && r < 13
    ensures Flat(b)[13 * q + r] == Chars(b[|b| - 1 - q])[r]
  {
    if q < |b| - 1 {
      FlatAt(b[1..], q, r);
    }
  }

  lemma {:induction false} FlatSet(b: seq<LfnEntry>, q: nat, r: nat, e: LfnEntry, c: Word)
    requires q < |b| && r < 13 && Chars(e) == Chars(b[|b| - 1 - q])[r := c]
    ensures Flat(b[|b| - 1 - q := e]) == Flat(b)[13 * q + r := c]
  {
    var b' := b[|b| - 1 - q := e];
    if q < |b| - 1 {
      FlatSet(b[1..], q, r, e, c);
      assert b'[1..] == b[1..][|b[1..]| - 1 - q := e];
    } else {
      assert b'[1..] == b[1..];
    }
  }

  lemma {:induction false} FlatSame(b: seq<LfnEntry>, b': seq<LfnEntry>)
    requires |b| == |b'| && forall i :: 0 <= i < |b| ==> Chars(b[i]) == Chars(b'[i])
    ensures Flat(b) == Flat(b')
  {
    if b != [] {
      FlatSame(b[1..], b'[1..]);
    }
  }

  /** The units of a name of n records: the terminator when there is room, then padding. */
  function Padded(units: seq<Word>, n: nat): (r: seq<Word>)
    requires |units| <= n
    ensures |r| == n
  {
    seq(n, i requires 0 <= i < n => if i < |units| then units[i] else if i == |units| then 0 else 0xFFFF)
  }

  /** The checksum of an 8.3 name. */
  function RollSum(name: seq<Byte>): (r: nat)
  {
    if name == [] then 0 else
      var sum := RollSum(name[..|name| - 1]);
      sum % 2 * 128 + sum % 256 / 2 + name[|name| - 1]
  }

  method LfnChecksum(name: seq<Byte>) returns (r: Byte)
    requires |name| == 11
    ensures r == RollSum(name) % 256
  {
    var sum: int := 0;
    var i := 0;
    while i < 11
      invariant 0 <= i <= 11 && 0 <= sum && sum == RollSum(name[..i])
    {
      assert name[..i + 1][..i] == name[..i];
      var b: int := name[i];
      sum := sum % 2 * 128 + sum % 256 / 2 + b;
      i := i + 1;
    }
    assert name[..11] == name;
    r := sum % 256;
  }

  /** Rotating a byte to the right undoes rotating it to the left. */
  lemma Rotated(sum: nat, y: Byte)
    requires 2 * y % 256 + y / 128 == sum % 256
    ensures sum % 2 * 128 + sum % 256 / 2 == y
  {
    var q, r := sum / 256, sum % 256;
    if y < 128 {
      assert 2 * y % 256 == 2 * y && y / 128 == 0;
      Halves(128 * q + y, 0);
      Halves(y, 0);
    } else {
      assert 2 * y % 256 == 2 * y - 256 && y / 128 == 1;
      Halves(128 * q + y - 128, 1);
      Halves(y - 128, 1);
    }
  }

  lemma Halves(a: nat, h: nat)
    requires h < 2
    ensures (2 * a + h) % 2 == h && (2 * a + h) / 2 == a
  {}

  lemma RollSnoc(name: seq<Byte>, c: Byte)
    ensures RollSum(name + [c]) == RollSum(name) % 2 * 128 + RollSum(name) % 256 / 2 + c
  {
    assert (name + [c])[..|name|] == name;
  }

  /** One more byte rotates the sum to the right, to the y whose left rotation it is, and adds the byte. */
  lemma ChecksumStep(name: seq<Byte>, c: Byte, y: Byte)
    requires 2 * y % 256 + y / 128 == RollSum(name) % 256
    ensures RollSum(name + [c]) % 256 == (y + c) % 256
  {
    hide RollSum;
    RollSnoc(name, c);
    Rotated(RollSum(name), y);
  }

  lemma ChecksumStart()
    ensures RollSum([]) == 0
  {}

  /** "README  TXT". */
  const README_TXT: seq<Byte> := [0x52, 0x45, 0x41, 0x44, 0x4D, 0x45, 0x20, 0x20, 0x54, 0x58, 0x54]

  lemma ChecksumOfReadme()
    ensures RollSum(README_TXT) % 256 == 0x73
  {
    hide RollSum;
    var n := README_TXT;
    ChecksumStart();
    ChecksumStep([], n[0], 0);
    assert [] + [n[0]] == n[..1];
    TakeNext(n, 1); ChecksumStep(n[..1], n[1], 0x29);
    TakeNext(n, 2); ChecksumStep(n[..2], n[2], 0x37);
    TakeNext(n, 3); ChecksumStep(n[..3], n[3], 0x3C);
    TakeNext(n, 4); ChecksumStep(n[..4], n[4], 0x40);
    TakeNext(n, 5); ChecksumStep(n[..5], n[5], 0xC6);
    TakeNext(n, 6); ChecksumStep(n[..6], n[6], 0x85);
    TakeNext(n, 7); ChecksumStep(n[..7], n[7], 0xD2);
    TakeNext(n, 8); ChecksumStep(n[..8], n[8], 0x79);
    TakeNext(n, 9); ChecksumStep(n[..9], n[9], 0xE6);
    TakeNext(n, 10); ChecksumStep(n[..10], n[10], 0x1F);
    assert n[..11] == n;
  }

  lemma TakeNext(s: seq<Byte>, k: nat)
    requires k < |s|
    ensures s[..k] + [s[k]] == s[..k + 1]
  {}

  /** The chain carries the units in order, numbered from the end, marked and summed. */
  ghost predicate IsChain(b: seq<LfnEntry>, units: seq<Word>, checksum: Byte) {
    && |b| > 0 && 13 * (|b| - 1) < |units| <= 13 * |b|
    && Flat(b) == Padded(units, 13 * |b|)
    && forall i :: 0 <= i < |b| ==>
         && b[i].ord == |b| - i + (if i == 0 then LFN_LASTENTRY else 0)
         && b[i].attr == ATTR_LONG_NAME && b[i].chksum == checksum && b[i].typ == 0 && b[i].fstclus == 0
  }

  /** Stores unit m of a name that takes size records. */
  method PutUnit(buf: array<LfnEntry>, size: nat, m: nat, c: Word)
    requires size <= buf.Length && m < 13 * size
    modifies buf
    ensures Flat(buf[..size]) == old(Flat(buf[..size]))[m := c]
  {
    var k := size - 1 - m / 13;
    ghost var before := buf[..size];
    buf[k] := SetChar(buf[k], c, m);
    FlatSet(before, m / 13, m % 13, buf[k], c);
    assert buf[..size] == before[k := buf[k]];
  }

  /** Writes the units of a name into the blanked records. */
  method PlaceUnits(buf: array<LfnEntry>, size: nat, units: seq<Word>)
    requires size <= buf.Length && 0 < |units| && 13 * (size - 1) < |units| <= 13 * size
    requires forall i :: 0 <= i < size ==> buf[i] == BLANK
    modifies buf
    ensures Flat(buf[..size]) == Padded(units, 13 * size)
  {
    hide Flat, Partly, Padded;
    var len := |units|;
    BlankFlat(buf[..size], units);
    var i := 0;
    while i < len
      invariant 0 <= i <= len
      invariant Flat(buf[..size]) == Partly(units, i, 13 * size)
    {
      PutUnit(buf, size, i, units[i]);
      PartlyStep(units, i, 13 * size);
      i := i + 1;
    }
    if len % 13 != 0 {
      PutUnit(buf, size, len, 0);
    }
    PartlyDone(units, 13 * size);
  }

  /** The first i units, then padding. */
  ghost function Partly(units: seq<Word>, i: nat, n: nat): (r: seq<Word>)
    requires i <= |units|
    ensures |r| == n
  {
    seq(n, m requires 0 <= m < n => if m < i then units[m] else 0xFFFF)
  }

  lemma PartlyStep(units: seq<Word>, i: nat, n: nat)
    requires i < |units| <= n
    ensures Partly(units, i + 1, n) == Partly(units, i, n)[i := units[i]]
  {
  }

  lemma PartlyDone(units: seq<Word>, n: nat)
    requires |units| <= n
    ensures |units| == n ==> Partly(units, |units|, n) == Padded(units, n)
    ensures |units| < n ==> Partly(units, |units|, n)[|units| := 0] == Padded(units, n)
  {
  }

  lemma {:induction false} BlankFlat(b: seq<LfnEntry>, units: seq<Word>)
    requires forall i :: 0 <= i < |b| ==> b[i] == BLANK
    ensures Flat(b) == Partly(units, 0, 13 * |b|)
  {
    if b != [] {
      BlankFlat(b[1..], units);
    }
  }

  /** Numbers, marks and sums the records. */
  method NumberRecords(buf: array<LfnEntry>, size: nat, checksum: Byte)
    requires 0 < size <= buf.Length && size < 0x40
    modifies buf
    ensures Flat(buf[..size]) == old(Flat(buf[..size]))
    ensures forall i :: 0 <= i < size ==>
              && buf[i].ord == size - i + (if i == 0 then LFN_LASTENTRY else 0)
              && buf[i].attr == ATTR_LONG_NAME && buf[i].chksum == checksum && buf[i].typ == 0 && buf[i].fstclus == 0
  {
    var i := 1;
    while i <= size
      invariant 1 <= i <= size + 1
      invariant forall k :: 0 <= k < size ==> Chars(buf[k]) == old(Chars(buf[k]))
      invariant forall k :: size - i < k < size ==>
                  && buf[k].ord == size - k && buf[k].attr == ATTR_LONG_NAME
                  && buf[k].chksum == checksum && buf[k].typ == 0 && buf[k].fstclus == 0
    {
      buf[size - i] := buf[size - i].(ord := i, attr := ATTR_LONG_NAME, chksum := checksum, typ := 0, fstclus := 0);
      i := i + 1;
    }
    // ord is at most size, below the mark: the bitwise or adds it
    buf[0] := buf[0].(ord := buf[0].ord + LFN_LASTENTRY);
    FlatSame(buf[..size], old(buf[..size]));
  }

  /** The name buffer of the source, in units; the terminator takes one. */
  const NAMEBUF := 256

  /** A name whose units and terminator do not fit the name buffer. */
  ghost predicate Overruns(cps: seq<nat>) {
    0 < |cps| <= 255 && |cps| + Wide(cps) >= NAMEBUF
  }

  /**
    Generates the records of a name; the number of records, or -1 for a name
    of no or more than 255 characters.  The length test counts characters, so
    wide ones can overrun the name buffer; nothing else is said of that case.
   */
  method GenerateLfnChain(name: seq<Byte>, buf: array<LfnEntry>, checksum: Byte, ghost cps: seq<nat>)
    returns (r: int, overrun: bool)
    requires Spellable(cps) && name == Name8(cps) && buf.Length == 21
    modifies buf
    ensures |cps| == 0 || |cps| > 255 ==> r == -1 && buf[..] == old(buf[..])
    ensures overrun <==> Overruns(cps)
    ensures 0 < |cps| <= 255 && !overrun ==>
              r == (|cps| - 1) / 13 + 1 <= 20 && IsChain(buf[..r], Units(cps)[..|cps|], checksum)
  {
    hide Flat, Padded, To16, Units, Name8, Spellable, Chars;
    var walk := Utf8Strlen(name);
    NameCounted(cps, walk);
    var len := walk.count;
    if len <= 0 || len > 255 {
      return -1, false;
    }
    var size := (len - 1) / 13 + 1;
    To16Name(cps);
    var res, units := Utf8To16(name);
    UnitsCount(cps);
    if |units| + 1 > NAMEBUF {
      return -1, true;
    }
    var i := 0;
    while i < 21
      invariant 0 <= i <= 21
      invariant forall k :: 0 <= k < i ==> buf[k] == BLANK
    {
      buf[i] := BLANK;
      i := i + 1;
    }
    PlaceUnits(buf, size, units[..len]);
    NumberRecords(buf, size, checksum);
    return size, false;
  }

  /** Are the records of a chain in order? */
  method CheckLfnOrder(b: seq<LfnEntry>) returns (r: int)
    ensures r == 0 || r == -1
    ensures r == 0 <==> forall i :: 0 <= i < |b| ==> b[i].ord % 0x40 == |b| - i
  {
    var i := 1;
    while i <= |b|
      invariant 1 <= i <= |b| + 1
      invariant forall k :: |b| - i < k < |b| ==> b[k].ord % 0x40 == |b| - k
    {
      if b[|b| - i].ord % 0x40 != i {
        return -1;
      }
      i := i + 1;
    }
    return 0;
  }

  /** Do the records of a chain belong to the short entry behind them? */
  method CheckLfnChecksum(b: seq<LfnEntry>, shortName: seq<Byte>) returns (r: int)
    requires |shortName| == 11
    ensures r == 0 || r == -1
    ensures r == 0 <==> forall i :: 0 <= i < |b| ==> b[i].chksum == RollSum(shortName) % 256
  {
    var checksum := LfnChecksum(shortName);
    var i := |b|;
    while i > 0
      invariant 0 <= i <= |b|
      invariant forall k :: i <= k < |b| ==> b[k].chksum == checksum
    {
      i := i - 1;
      if b[i].chksum != checksum {
        return -1;
      }
    }
    return 0;
  }

  /** z is where the name ends: at the first zero in the record that ends it, or behind that record. */
  ghost predicate NameEnd(b: seq<LfnEntry>, z: nat) {
    && |b| > 0 && 13 * (|b| - 1) <= z <= 13 * |b|
    && (forall m :: 13 * (|b| - 1) <= m < z ==> Flat(b)[m] != 0)
    && (z < 13 * |b| ==> Flat(b)[z] == 0)
  }

  /** Length of a long name with its terminator. */
  method FindLfnLength(b: seq<LfnEntry>) returns (r: int)
    ensures |b| == 0 ==> r == -1
    ensures |b| > 0 ==> r > 0 && NameEnd(b, r - 1)
  {
    if |b| == 0 {
      return -1;
    }
    var size := (|b| - 1) * 13;
    var i := 0;
    while i < 13
      invariant 0 <= i <= 13
      invariant forall m :: size <= m < size + i ==> Flat(b)[m] != 0
    {
      FlatAt(b, |b| - 1, i);
      var c := FetchChar(b[0], i);
      if c == 0 {
        return i + 1 + size;
      }
      i := i + 1;
    }
    return i + 1 + size;
  }

  /** The first length-1 units of a chain. */
  method ExtractLfnName(b: seq<LfnEntry>, length: nat) returns (dest: seq<Word>)
    requires 0 < length <= 13 * |b| + 1
    ensures dest == Flat(b)[..length - 1]
  {
    hide Flat, FetchChar, Chars;
    dest := [];
    var i := 0;
    while i < length - 1
      invariant 0 <= i < length && dest == Flat(b)[..i]
    {
      var entry := |b| - 1 - i / 13;
      FlatAt(b, i / 13, i % 13);
      var c := FetchChar(b[entry], i);
      assert c == Flat(b)[i];
      dest := dest + [c];
      i := i + 1;
    }
  }

  /** What a chain that stores units reads back as: the units up to a zero in its last record. */
  lemma ChainReads(b: seq<LfnEntry>, units: seq<Word>, checksum: Byte, z: nat)
    requires IsChain(b, units, checksum) && NameEnd(b, z)
    ensures z <= |units| && Flat(b)[..z] == units[..z]
    ensures 0 !in units ==> z == |units|
  {
    var n := 13 * |b|;
    var p := Padded(units, n);
    assert forall i :: 0 <= i < |units| ==> p[i] == units[i];
    if |units| < n {
      assert p[|units|] == 0;
    }
  }

  /** Where the units of a name are in its chain: record q from the end holds 13 of them, 5, 6 and 2 in its fields. */
  lemma ChainLayout(b: seq<LfnEntry>, units: seq<Word>, checksum: Byte, q: nat)
    requires IsChain(b, units, checksum) && 13 * (q + 1) <= |units|
    ensures q < |b|
    ensures var e, m := b[|b| - 1 - q], 13 * q;
      e.name1 == units[m..m + 5] && e.name2 == units[m + 5..m + 11] && e.name3 == units[m + 11..m + 13]
  {
    hide Flat, Padded;
    var e, m := b[|b| - 1 - q], 13 * q;
    forall r: nat | r < 13 ensures Chars(e)[r] == units[m + r] {
      FlatAt(b, q, r);
      PaddedAt(units, 13 * |b|, m + r);
    }
    forall i | 0 <= i < 5 ensures e.name1[i] == units[m + i] { assert e.name1[i] == Chars(e)[i]; }
    forall i | 0 <= i < 6 ensures e.name2[i] == units[m + 5 + i] { assert e.name2[i] == Chars(e)[5 + i]; }
    forall i | 0 <= i < 2 ensures e.name3[i] == units[m + 11 + i] { assert e.name3[i] == Chars(e)[11 + i]; }
  }

  lemma PaddedAt(units: seq<Word>, n: nat, i: nat)
    requires |units| <= n && i < n
    ensures Padded(units, n)[i] == if i < |units| then units[i] else if i == |units| then 0 else 0xFFFF
  {}

  /** The one record of the name "A": its number with the mark of the last one, the letter, a terminator and padding. */
  lemma ChainOfOne(b: seq<LfnEntry>, checksum: Byte)
    requires IsChain(b, [0x41], checksum)
    ensures b == [Entry(0x41, [0x41, 0, 0xFFFF, 0xFFFF, 0xFFFF], 0x0F, 0, checksum,
                        [0xFFFF, 0xFFFF, 0xFFFF, 0xFFFF, 0xFFFF, 0xFFFF], 0, [0xFFFF, 0xFFFF])]
  {
    hide Flat, Padded;
    var units: seq<Word> := [0x41];
    assert |b| == 1;
    var e := b[0];
    forall r: nat | r < 13 ensures Chars(e)[r] == if r == 0 then 0x41 else if r == 1 then 0 else 0xFFFF {
      FlatAt(b, 0, r);
      PaddedAt(units, 13, r);
    }
    forall i | 0 <= i < 5 ensures e.name1[i] == Chars(e)[i] {}
    forall i | 0 <= i < 6 ensures e.name2[i] == Chars(e)[5 + i] {}
    forall i | 0 <= i < 2 ensures e.name3[i] == Chars(e)[11 + i] {}
    assert e.name1 == [0x41, 0, 0xFFFF, 0xFFFF, 0xFFFF];
    assert e.name2 == [0xFFFF, 0xFFFF, 0xFFFF, 0xFFFF, 0xFFFF, 0xFFFF];
    assert e.name3 == [0xFFFF, 0xFFFF];
  }

  lemma ChainSize(b: seq<LfnEntry>, units: seq<Word>, checksum: Byte)
    requires IsChain(b, units, checksum)
    ensures |b| > 0
  {
  }

  lemma EndInChain(b: seq<LfnEntry>, z: nat)
    requires NameEnd(b, z)
    ensures z <= 13 * |b|
  {
  }

  lemma ChainAccepted(b: seq<LfnEntry>, units: seq<Word>, checksum: Byte, shortName: seq<Byte>)
    requires IsChain(b, units, checksum) && checksum == RollSum(shortName) % 256 && |b| < 0x40
    ensures forall i :: 0 <= i < |b| ==> b[i].ord % 0x40 == |b| - i && b[i].chksum == RollSum(shortName) % 256
  {
  }

  /** The name read back spells narrow characters only, or differs from the one stored. */
  lemma LoadedIff(cps: seq<nat>, z: nat)
    requires Spellable(cps) && z <= |cps|
    requires 0 !in Units(cps)[..|cps|] ==> z == |cps|
    ensures To8(Units(cps)[..z]) == Some(Name8(cps)) <==> Narrow(cps)
  {
    if Narrow(cps) {
      NarrowUnits(cps);
      assert Units(cps)[..|cps|] == cps;
      Spelled16Shape(Units(cps));
    } else {
      var w := Units(cps)[..z];
      Spelled16Shape(w);
      if To8(w) == Some(Name8(cps)) {
        NameInjective(Spelled16(w).value, cps);
        NotWide(cps);
      }
    }
  }

  /** A name of one wide character, U+1F600, comes back as the single character U+1500. */
  lemma WideNameChanges()
    ensures Units([0x1_F600])[..1] == [0x1500]
    ensures To8(Units([0x1_F600])[..1]) == Some(Encode8(0x1500))
  {
    var w: seq<Word> := [0x1500];
    assert Encode16(0x1_F600) == [0x1500, 0xDE00];
    assert Units([0x1_F600]) == Encode16(0x1_F600) + Units([]);
    assert To8(w[1..]) == Some([]);
    assert Encode8(0x1500) + [] == Encode8(0x1500);
  }

  lemma {:induction false} AllWide(n: nat)
    ensures var cps: seq<nat> := seq(n, _ => 0x1_F600); Spellable(cps) && Wide(cps) == n
  {
    var cps: seq<nat> := seq(n, _ => 0x1_F600);
    if n > 0 {
      AllWide(n - 1);
      assert cps[1..] == seq(n - 1, _ => 0x1_F600);
    }
  }

  /** 128 times U+1F600 passes the length test and needs 257 units with the terminator. */
  lemma WideNameOverruns()
    ensures var cps: seq<nat> := seq(128, _ => 0x1_F600); Spellable(cps) && |Units(cps)| == 256 && Overruns(cps)
  {
    hide Units, Wide, Spellable;
    AllWide(128);
    UnitsCount(seq(128, _ => 0x1_F600));
  }

  /**
    Stores a name and reads it back, as creating and listing a directory entry
    do: the checks accept the chain, and the name comes back unchanged exactly
    when every character is below 0x10000 and no high surrogate.
   */
  method StoreAndLoad(name: seq<Byte>, shortName: seq<Byte>, ghost cps: seq<nat>)
    returns (r: int, out: seq<Byte>, accepted: bool, overrun: bool)
    requires Spellable(cps) && name == Name8(cps) && |shortName| == 11
    ensures |cps| == 0 || |cps| > 255 ==> r == -1
    ensures overrun <==> Overruns(cps)
    ensures 0 < |cps| <= 255 && !overrun ==> accepted && (r == 0 && out == name <==> Narrow(cps))
  {
    hide Flat, Padded, To8, Units, Name8, RollSum, IsChain, NameEnd, Narrow, Chars;
    out, accepted := [], false;
    var buf := new LfnEntry[21](_ => BLANK);
    var checksum := LfnChecksum(shortName);
    var size: int;
    size, overrun := GenerateLfnChain(name, buf, checksum, cps);
    if size < 0 || overrun {
      return -1, out, accepted, overrun;
    }
    var b := buf[..size];
    ghost var units := Units(cps)[..|cps|];
    ChainAccepted(b, units, checksum, shortName);
    var order := CheckLfnOrder(b);
    var sums := CheckLfnChecksum(b, shortName);
    accepted := order == 0 && sums == 0;
    ChainSize(b, units, checksum);
    var length := FindLfnLength(b);
    EndInChain(b, length - 1);
    ChainReads(b, units, checksum, length - 1);
    var words := ExtractLfnName(b, length);
    LoadedIff(cps, length - 1);
    assert units[..length - 1] == Units(cps)[..length - 1];
    r, out := Utf16To8(words);
  }
}
