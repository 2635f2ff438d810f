/**
  Merged directories of viewfs: what a listing of a virtual directory over a
  real one contains, and how it is handed out page by page.
 */
module ViewFsSpec {
  const DT_REG := 8
  const HIDDEN := ".-"

  /** A directory entry as the kernel returns it. */
  datatype Raw = Raw(name: string, ino: nat, dtype: int)

  /** An entry of the merged list; a record length of 0 marks a name that is wiped out. */
  datatype Dirent = Dirent(name: string, ino: nat, dtype: int, reclen: nat, off: int)

  /** The next multiple of the word size above x. */
  function WordAlign(x: nat): nat {
    (x / 8 + 1) * 8
  }

  /** The size of a record before its name. */
  const NONAME := 19

  function Names(list: seq<Dirent>): set<string> {
    set i | 0 <= i < |list| :: list[i].name
  }

  function Shown(list: seq<Dirent>): set<string> {
    set i | 0 <= i < |list| && list[i].reclen > 0 :: list[i].name
  }

  function RawNames(raws: seq<Raw>): set<string> {
    set i | 0 <= i < |raws| :: raws[i].name
  }

  function Regular(raws: seq<Raw>): set<string> {
    set i | 0 <= i < |raws| && raws[i].dtype == DT_REG :: raws[i].name
  }

  // ---- One layer ----

  /** Whether an entry of a layer joins the list; base is the list before the layer. */
  predicate Joins(base: seq<Dirent>, r: Raw, wipe: bool, root: bool) {
    !(wipe && r.dtype != DT_REG) && r.name !in Names(base) && !(root && r.name == HIDDEN)
  }

  function Advance(r: Raw, offset: int, wipe: bool): int {
    if wipe then offset else offset + WordAlign(12 + |r.name|)
  }

  function Make(r: Raw, offset: int, wipe: bool): Dirent {
    Dirent(r.name, r.ino, r.dtype, if wipe then 0 else WordAlign(NONAME + |r.name| + 1), Advance(r, offset, wipe))
  }

  /** A record is the smallest multiple of the word size above its header, name and terminator. */
  lemma RecordSize(r: Raw, offset: int)
    ensures var n := Make(r, offset, false).reclen; n % 8 == 0 && NONAME + |r.name| + 1 < n <= NONAME + |r.name| + 1 + 8
  {
    var x := NONAME + |r.name| + 1;
    assert x / 8 * 8 <= x < (x / 8 + 1) * 8;
  }

  /** The list after the entries of a layer. */
  function Layer(base: seq<Dirent>, list: seq<Dirent>, offset: int, raws: seq<Raw>, wipe: bool, root: bool): seq<Dirent>
    decreases |raws|
  {
    if raws == [] then list
    else if Joins(base, raws[0], wipe, root) then
      Layer(base, list + [Make(raws[0], offset, wipe)], Advance(raws[0], offset, wipe), raws[1..], wipe, root)
    else Layer(base, list, offset, raws[1..], wipe, root)
  }

  /** Where the offsets of a new layer start. */
  function Start(list: seq<Dirent>): int {
    if list == [] then 0 else list[|list| - 1].off + WordAlign(12 + |list[|list| - 1].name|)
  }

  function AddLayer(base: seq<Dirent>, raws: seq<Raw>, wipe: bool, root: bool): seq<Dirent> {
    Layer(base, base, Start(base), raws, wipe, root)
  }

  /** The layers of a merged directory; a wipe or real directory may be missing. */
  datatype Dir = Dir(virtual: seq<Raw>, wiped: seq<Raw>, under: seq<Raw>, merge: bool, root: bool)

  function Merged(d: Dir): seq<Dirent> {
    var list := AddLayer([], d.virtual, false, d.root);
    if d.merge then AddLayer(AddLayer(list, d.wiped, true, false), d.under, false, false) else list
  }

  /** What lstat finds: a virtual name, or a real one that is not wiped out by a regular file. */
  predicate Lookup(d: Dir, name: string) {
    name in RawNames(d.virtual) || (d.merge && name !in Regular(d.wiped) && name in RawNames(d.under))
  }

  // ---- Listing and lookup ----

  lemma NamesSnoc(list: seq<Dirent>, e: Dirent)
    ensures Names(list + [e]) == Names(list) + {e.name}
    ensures Shown(list + [e]) == Shown(list) + if e.reclen > 0 then {e.name} else {}
  {
    var l := list + [e];
    assert l[|list|] == e;
    forall i | 0 <= i < |list| ensures l[i] == list[i] {}
  }

  /** The names a layer brings. */
  function Joining(base: seq<Dirent>, raws: seq<Raw>, wipe: bool, root: bool): set<string> {
    set i | 0 <= i < |raws| && Joins(base, raws[i], wipe, root) :: raws[i].name
  }

  lemma JoiningFirst(base: seq<Dirent>, raws: seq<Raw>, wipe: bool, root: bool)
    requires raws != []
    ensures Joining(base, raws, wipe, root) ==
            (if Joins(base, raws[0], wipe, root) then {raws[0].name} else {}) + Joining(base, raws[1..], wipe, root)
  {
    hide Joins;
    var r := raws[1..];
    forall n | n in Joining(base, raws, wipe, root)
      ensures n in (if Joins(base, raws[0], wipe, root) then {raws[0].name} else {}) + Joining(base, r, wipe, root)
    {
      var i :| 0 <= i < |raws| && Joins(base, raws[i], wipe, root) && raws[i].name == n;
      if i > 0 { assert r[i - 1] == raws[i]; }
    }
    forall i | 0 <= i < |r| ensures r[i] == raws[i + 1] {}
  }

  lemma {:induction false} LayerNames(base: seq<Dirent>, list: seq<Dirent>, offset: int, raws: seq<Raw>,
                                      wipe: bool, root: bool)
    ensures var l := Layer(base, list, offset, raws, wipe, root);
      && Names(l) == Names(list) + Joining(base, raws, wipe, root)
      && Shown(l) == Shown(list) + if wipe then {} else Joining(base, raws, wipe, root)
    decreases |raws|
  {
    hide Joins, Names, Shown, Joining;
    if raws == [] {
      JoiningNone(base, wipe, root);
    } else {
      JoiningFirst(base, raws, wipe, root);
      if Joins(base, raws[0], wipe, root) {
        var e := Make(raws[0], offset, wipe);
        NamesSnoc(list, e);
        LayerNames(base, list + [e], Advance(raws[0], offset, wipe), raws[1..], wipe, root);
      } else {
        LayerNames(base, list, offset, raws[1..], wipe, root);
      }
    }
  }

  lemma JoiningNone(base: seq<Dirent>, wipe: bool, root: bool)
    ensures Joining(base, [], wipe, root) == {}
  {}

  lemma JoiningSet(base: seq<Dirent>, raws: seq<Raw>, wipe: bool, root: bool, name: string)
    ensures name in Joining(base, raws, wipe, root) <==>
            && name in (if wipe then Regular(raws) else RawNames(raws))
            && name !in Names(base) && !(root && name == HIDDEN)
  {
    hide Names;
  }

  /** What is listed: any name joins from the first layer that has it, except the hidden name at the root. */
  lemma ListedExact(d: Dir, name: string)
    ensures name in Shown(Merged(d)) <==>
            || (name in RawNames(d.virtual) && !(d.root && name == HIDDEN))
            || (d.merge && name !in Regular(d.wiped) && name in RawNames(d.under))
  {
    hide Names, Shown, Joining, Regular, RawNames;
    var l1 := AddLayer([], d.virtual, false, d.root);
    LayerNames([], [], 0, d.virtual, false, d.root);
    JoiningSet([], d.virtual, false, d.root, name);
    NamesNone();
    if d.merge {
      var l2 := AddLayer(l1, d.wiped, true, false);
      LayerNames(l1, l1, Start(l1), d.wiped, true, false);
      JoiningSet(l1, d.wiped, true, false, name);
      LayerNames(l2, l2, Start(l2), d.under, false, false);
      JoiningSet(l2, d.under, false, false, name);
    }
  }

  lemma NamesNone()
    ensures Names([]) == {} && Shown([]) == {}
  {}

  /** A name is listed exactly when a lookup finds it, apart from the hidden name at the root of the mount. */
  lemma ListedIffFound(d: Dir, name: string)
    requires name != HIDDEN || !d.root
    ensures name in Shown(Merged(d)) <==> Lookup(d, name)
  {
    hide Shown, Merged, Regular, RawNames;
    ListedExact(d, name);
  }

  /** The hidden name, which should not be listed at the root, is listed there when the real directory has it. */
  lemma HiddenListedIff(d: Dir)
    requires d.root
    ensures HIDDEN in Shown(Merged(d)) <==> d.merge && HIDDEN !in Regular(d.wiped) && HIDDEN in RawNames(d.under)
  {
    hide Shown, Merged, Regular, RawNames;
    ListedExact(d, HIDDEN);
  }

  // ---- What the entries say ----

  /** The entry has the name, inode and type that a directory gives. */
  ghost predicate Tells(e: Dirent, raws: seq<Raw>) {
    exists i :: 0 <= i < |raws| && raws[i] == Raw(e.name, e.ino, e.dtype)
  }

  /** The record is the smallest multiple of the word size above header, name and terminator. */
  predicate Sized(e: Dirent) {
    e.reclen % 8 == 0 && NONAME + |e.name| + 1 < e.reclen <= NONAME + |e.name| + 1 + 8
  }

  /** An entry that a layer has added. */
  ghost predicate FromLayer(e: Dirent, base: seq<Dirent>, raws: seq<Raw>, wipe: bool, root: bool) {
    && Tells(e, raws) && (if wipe then e.reclen == 0 else Sized(e))
    && e.name !in Names(base) && !(root && e.name == HIDDEN)
  }

  lemma JoinsTells(base: seq<Dirent>, offset: int, raws: seq<Raw>, k: nat, wipe: bool, root: bool)
    requires k < |raws| && Joins(base, raws[k], wipe, root)
    ensures FromLayer(Make(raws[k], offset, wipe), base, raws, wipe, root)
  {
    hide WordAlign, Names;
    RecordSize(raws[k], offset);
  }

  /** A layer keeps the list and adds entries of its own directory. */
  lemma {:induction false} LayerTells(base: seq<Dirent>, list: seq<Dirent>, offset: int, raws: seq<Raw>, k: nat,
                                      wipe: bool, root: bool)
    requires k <= |raws|
    ensures var l := Layer(base, list, offset, raws[k..], wipe, root);
      && list <= l
      && forall i :: |list| <= i < |l| ==> FromLayer(l[i], base, raws, wipe, root)
    decreases |raws| - k
  {
    hide FromLayer, Make, Joins;
    if k < |raws| {
      var rest := raws[k..];
      assert rest[0] == raws[k] && rest[1..] == raws[k + 1..];
      if Joins(base, raws[k], wipe, root) {
        var e := Make(raws[k], offset, wipe);
        JoinsTells(base, offset, raws, k, wipe, root);
        LayerTells(base, list + [e], Advance(raws[k], offset, wipe), raws, k + 1, wipe, root);
      } else {
        LayerTells(base, list, offset, raws, k + 1, wipe, root);
      }
    }
  }

  lemma AddLayerTells(base: seq<Dirent>, raws: seq<Raw>, wipe: bool, root: bool, i: nat)
    requires i < |AddLayer(base, raws, wipe, root)|
    ensures var l := AddLayer(base, raws, wipe, root);
      if i < |base| then l[i] == base[i] else FromLayer(l[i], base, raws, wipe, root)
  {
    hide Layer, FromLayer;
    assert raws[0..] == raws;
    LayerTells(base, base, Start(base), raws, 0, wipe, root);
  }

  /** The directory a name is listed from: the virtual one if it lists the name, and else the real one. */
  function Origin(d: Dir, name: string): seq<Raw> {
    if name in RawNames(d.virtual) && !(d.root && name == HIDDEN) then d.virtual else d.under
  }

  /** Every entry shown says of its name what the directory says that it is listed from. */
  lemma MergedTells(d: Dir, i: nat)
    requires i < |Merged(d)| && Merged(d)[i].reclen > 0
    ensures var e := Merged(d)[i]; Tells(e, Origin(d, e.name)) && Sized(e)
  {
    hide Layer, Names, Sized, Joining, RawNames, AddLayer, Shown;
    var e := Merged(d)[i];
    var l1 := AddLayer([], d.virtual, false, d.root);
    if d.merge {
      var l2 := AddLayer(l1, d.wiped, true, false);
      AddLayerTells(l2, d.under, false, false, i);
      if i >= |l2| {
        NotFirst(d, e.name);
      } else {
        AddLayerTells(l1, d.wiped, true, false, i);
        if i < |l1| { FirstTells(d, i); }
      }
    } else {
      FirstTells(d, i);
    }
  }

  lemma FirstTells(d: Dir, i: nat)
    requires i < |AddLayer([], d.virtual, false, d.root)|
    ensures var e := AddLayer([], d.virtual, false, d.root)[i]; Tells(e, Origin(d, e.name)) && Sized(e)
  {
    hide AddLayer, Sized, Names;
    AddLayerTells([], d.virtual, false, d.root, i);
  }

  lemma NotFirst(d: Dir, name: string)
    requires var l1 := AddLayer([], d.virtual, false, d.root); name !in Names(AddLayer(l1, d.wiped, true, false))
    ensures Origin(d, name) == d.under
  {
    hide Names, Joining, RawNames, Layer, Shown;
    var l1 := AddLayer([], d.virtual, false, d.root);
    LayerNames(l1, l1, Start(l1), d.wiped, true, false);
    LayerNames([], [], 0, d.virtual, false, d.root);
    JoiningSet([], d.virtual, false, d.root, name);
    NamesNone();
  }

  // ---- Every name once ----

  ghost predicate Distinct(list: seq<Dirent>) {
    forall i, j :: 0 <= i < j < |list| ==> list[i].name != list[j].name
  }

  ghost predicate RawDistinct(raws: seq<Raw>) {
    forall i, j :: 0 <= i < j < |raws| ==> raws[i].name != raws[j].name
  }

  /** A layer with distinct names keeps the list distinct, although it is compared with the list before it only. */
  lemma {:induction false} LayerDistinct(base: seq<Dirent>, list: seq<Dirent>, offset: int, raws: seq<Raw>,
                                         wipe: bool, root: bool)
    requires Distinct(list) && RawDistinct(raws) && Names(list) * RawNames(raws) <= Names(base)
    ensures Distinct(Layer(base, list, offset, raws, wipe, root))
    decreases |raws|
  {
    hide Names, RawNames;
    if raws != [] {
      var r, rest := raws[0], raws[1..];
      RawFirst(raws);
      if Joins(base, r, wipe, root) {
        var e := Make(r, offset, wipe);
        NamesSnoc(list, e);
        DistinctSnoc(list, e);
        LayerDistinct(base, list + [e], Advance(r, offset, wipe), rest, wipe, root);
      } else {
        LayerDistinct(base, list, offset, rest, wipe, root);
      }
    }
  }

  lemma RawFirst(raws: seq<Raw>)
    requires raws != [] && RawDistinct(raws)
    ensures RawNames(raws) == {raws[0].name} + RawNames(raws[1..]) && raws[0].name !in RawNames(raws[1..])
    ensures RawDistinct(raws[1..])
  {
    var r := raws[1..];
    forall i | 0 <= i < |r| ensures r[i] == raws[i + 1] {}
    forall n | n in RawNames(raws) ensures n == raws[0].name || n in RawNames(r) {
      var i :| 0 <= i < |raws| && raws[i].name == n;
      if i > 0 { assert r[i - 1] == raws[i]; }
    }
  }

  lemma DistinctSnoc(list: seq<Dirent>, e: Dirent)
    requires Distinct(list) && e.name !in Names(list)
    ensures Distinct(list + [e])
  {
    var l := list + [e];
    forall i | 0 <= i < |list| ensures l[i] == list[i] && list[i].name in Names(list) {}
  }

  /** When no directory holds a name twice, neither does the merged list, wiped names included. */
  lemma MergedDistinct(d: Dir)
    requires RawDistinct(d.virtual) && RawDistinct(d.wiped) && RawDistinct(d.under)
    ensures Distinct(Merged(d))
  {
    hide Names, RawNames;
    NamesNone();
    LayerDistinct([], [], 0, d.virtual, false, d.root);
    var l1 := AddLayer([], d.virtual, false, d.root);
    LayerDistinct(l1, l1, Start(l1), d.wiped, true, false);
    var l2 := AddLayer(l1, d.wiped, true, false);
    LayerDistinct(l2, l2, Start(l2), d.under, false, false);
  }

  // ---- Offsets ----

  /** Offsets never fall, and each entry that is shown has one above all before it. */
  ghost predicate Rising(list: seq<Dirent>) {
    forall i, j :: 0 <= i < j < |list| ==>
      list[i].off <= list[j].off && (list[j].reclen > 0 ==> list[i].off < list[j].off)
  }

  lemma {:induction false} LayerRising(base: seq<Dirent>, list: seq<Dirent>, offset: int, raws: seq<Raw>,
                                       wipe: bool, root: bool)
    requires Rising(list) && forall i :: 0 <= i < |list| ==> list[i].off <= offset
    ensures Rising(Layer(base, list, offset, raws, wipe, root))
    decreases |raws|
  {
    hide Joins;
    if raws != [] {
      if Joins(base, raws[0], wipe, root) {
        LayerRising(base, list + [Make(raws[0], offset, wipe)], Advance(raws[0], offset, wipe), raws[1..], wipe, root);
      } else {
        LayerRising(base, list, offset, raws[1..], wipe, root);
      }
    }
  }

  /** Each entry of a layer is as far from the one before it as its own name is long; wiped names take no place. */
  lemma {:induction false} LayerOffsets(base: seq<Dirent>, list: seq<Dirent>, offset: int, raws: seq<Raw>,
                                        wipe: bool, root: bool, i: nat)
    requires |list| <= i < |Layer(base, list, offset, raws, wipe, root)|
    ensures var l := Layer(base, list, offset, raws, wipe, root);
      && list <= l
      && l[i].off == (if i == |list| then offset else l[i - 1].off) + if wipe then 0 else WordAlign(12 + |l[i].name|)
    decreases |raws|
  {
    hide Joins, WordAlign;
    if raws != [] {
      if Joins(base, raws[0], wipe, root) {
        var e := Make(raws[0], offset, wipe);
        var l := Layer(base, list + [e], Advance(raws[0], offset, wipe), raws[1..], wipe, root);
        LayerKeeps(base, list + [e], Advance(raws[0], offset, wipe), raws[1..], wipe, root);
        assert l[|list|] == e;
        if i > |list| {
          LayerOffsets(base, list + [e], Advance(raws[0], offset, wipe), raws[1..], wipe, root, i);
        }
      } else {
        LayerOffsets(base, list, offset, raws[1..], wipe, root, i);
      }
    }
  }

  lemma LayerKeeps(base: seq<Dirent>, list: seq<Dirent>, offset: int, raws: seq<Raw>, wipe: bool, root: bool)
    ensures list <= Layer(base, list, offset, raws, wipe, root)
  {
    hide Layer, FromLayer;
    assert raws[0..] == raws;
    LayerTells(base, list, offset, raws, 0, wipe, root);
  }

  lemma MergedRising(d: Dir)
    ensures Rising(Merged(d))
  {
    hide Layer;
    LayerRising([], [], 0, d.virtual, false, d.root);
    var l1 := AddLayer([], d.virtual, false, d.root);
    LayerRising(l1, l1, Start(l1), d.wiped, true, false);
    var l2 := AddLayer(l1, d.wiped, true, false);
    LayerRising(l2, l2, Start(l2), d.under, false, false);
  }
}

/** The pages in which a list of entries is handed out. */
module Paging {
  import opened ViewFsSpec

  /** The entry as it is handed out: inode 0 is special to the C library. */
  function Record(e: Dirent): Dirent {
    if e.ino == 0 then e.(ino := 2) else e
  }

  /** The records of a list, without wiped entries. */
  function Records(list: seq<Dirent>): seq<Dirent> {
    if list == [] then []
    else if list[0].reclen > 0 then [Record(list[0])] + Records(list[1..])
    else Records(list[1..])
  }

  function Size(list: seq<Dirent>): nat {
    if list == [] then 0 else list[0].reclen + Size(list[1..])
  }

  /** How many entries a buffer takes when used bytes of it are filled. */
  function Fits(list: seq<Dirent>, used: nat, count: nat): (n: nat)
    ensures n <= |list|
  {
    if list == [] || used + list[0].reclen >= count then 0
    else 1 + Fits(list[1..], used + list[0].reclen, count)
  }

  /** The position in an open directory: nothing read, or the number of entries read. */
  datatype Position = Unread | At(n: nat)

  function Done(p: Position): nat {
    if p == Unread then 0 else p.n
  }

  /** The position after a call; a first call that takes nothing leaves it at the end of the list. */
  function Next(list: seq<Dirent>, p: Position, count: nat): Position
    requires Done(p) <= |list|
  {
    var n := Done(p) + Fits(list[Done(p)..], 0, count);
    if p == Unread && n == 0 then At(|list|) else At(n)
  }

  /** What a call returns. */
  function Page(list: seq<Dirent>, p: Position, count: nat): seq<Dirent>
    requires Done(p) <= |list|
  {
    Records(list[Done(p)..][..Fits(list[Done(p)..], 0, count)])
  }

  lemma {:induction false} RecordsConcat(a: seq<Dirent>, b: seq<Dirent>)
    ensures Records(a + b) == Records(a) + Records(b)
  {
    if a == [] {
      assert a + b == b;
    } else {
      assert (a + b)[1..] == a[1..] + b;
      RecordsConcat(a[1..], b);
    }
  }

  /** A call with room for its first entry either returns a record or reaches the end. */
  lemma {:induction false} FitsProgress(list: seq<Dirent>, used: nat, count: nat)
    requires used < count && (used == 0 ==> forall i :: 0 <= i < |list| ==> list[i].reclen < count)
    ensures used == 0 && Records(list[..Fits(list, used, count)]) == [] ==> Fits(list, used, count) == |list|
  {
    if used == 0 && list != [] {
      var n := Fits(list[1..], list[0].reclen, count);
      assert list[..1 + n][1..] == list[1..][..n];
      if list[0].reclen == 0 {
        FitsProgress(list[1..], 0, count);
      }
    }
  }

  predicate Roomy(list: seq<Dirent>, count: nat) {
    count > 0 && forall i :: 0 <= i < |list| ==> list[i].reclen < count
  }

  /** Pages of a sequence of calls. */
  function Pages(list: seq<Dirent>, p: Position, counts: seq<nat>): (r: seq<seq<Dirent>>)
    requires Done(p) <= |list|
    ensures |r| == |counts|
    decreases |counts|
  {
    if counts == [] then [] else [Page(list, p, counts[0])] + Pages(list, Next(list, p, counts[0]), counts[1..])
  }

  function Concat(pages: seq<seq<Dirent>>): seq<Dirent> {
    if pages == [] then [] else pages[0] + Concat(pages[1..])
  }

  /** At the end of the list every call returns nothing, whatever its buffer. */
  lemma {:induction false} AtEnd(list: seq<Dirent>, counts: seq<nat>, i: nat)
    requires i < |counts|
    ensures Pages(list, At(|list|), counts)[i] == []
    decreases |counts|
  {
    var rest := list[|list|..];
    assert rest == [];
    assert Next(list, At(|list|), counts[0]) == At(|list|);
    if i > 0 { AtEnd(list, counts[1..], i - 1); }
  }

  /** One call with enough room: its page is the next piece of the records, and it is empty only at the end. */
  lemma PageNext(list: seq<Dirent>, p: Position, count: nat)
    requires Done(p) <= |list| && Roomy(list, count)
    ensures Next(list, p, count).At? && Done(p) <= Next(list, p, count).n <= |list|
    ensures var n := Next(list, p, count).n;
      && Records(list[Done(p)..]) == Page(list, p, count) + Records(list[n..])
      && (Page(list, p, count) == [] ==> n == |list|)
  {
    hide Records, Fits, Roomy;
    PageOf(list, Done(p), count);
    if p == Unread && list != [] { FitsSome(list, count); }
  }

  lemma PageOf(list: seq<Dirent>, d: nat, count: nat)
    requires d <= |list| && Roomy(list, count)
    ensures var k := Fits(list[d..], 0, count);
      && Records(list[d..]) == Records(list[d..][..k]) + Records(list[d + k..])
      && (Records(list[d..][..k]) == [] ==> d + k == |list|)
  {
    hide Records, Fits, Roomy;
    var rest := list[d..];
    var k := Fits(rest, 0, count);
    RoomyRest(list, d, count);
    RoomyCount(list, count);
    FitsProgress(rest, 0, count);
    RecordsSplit(rest, k);
    assert rest[k..] == list[d + k..];
  }

  lemma RoomyCount(list: seq<Dirent>, count: nat)
    requires Roomy(list, count)
    ensures count > 0
  {}

  lemma RoomyRest(list: seq<Dirent>, d: nat, count: nat)
    requires d <= |list| && Roomy(list, count)
    ensures var rest := list[d..]; forall i :: 0 <= i < |rest| ==> rest[i].reclen < count
  {}

  lemma RecordsSplit(list: seq<Dirent>, k: nat)
    requires k <= |list|
    ensures Records(list) == Records(list[..k]) + Records(list[k..])
  {
    hide Records;
    assert list == list[..k] + list[k..];
    RecordsConcat(list[..k], list[k..]);
  }

  lemma FitsSome(list: seq<Dirent>, count: nat)
    requires list != [] && Roomy(list, count)
    ensures Fits(list[0..], 0, count) > 0
  {
    assert list[0..] == list;
  }

  /**
    Paging is complete: with buffers larger than every record, the pages before
    the first empty one are together the records of the list, in order and each
    once, and from then on every page is empty, even with smaller buffers.
   */
  lemma {:induction false} PagesComplete(list: seq<Dirent>, p: Position, counts: seq<nat>, i: nat, j: nat)
    requires Done(p) <= |list| && i <= j < |counts|
    requires forall k :: 0 <= k <= i ==> Roomy(list, counts[k])
    requires Pages(list, p, counts)[i] == [] && forall k :: 0 <= k < i ==> Pages(list, p, counts)[k] != []
    ensures Concat(Pages(list, p, counts)[..i]) == Records(list[Done(p)..])
    ensures Pages(list, p, counts)[j] == []
    decreases i
  {
    hide Page, Next, Roomy, Records, Pages, Concat, Fits;
    var pages, rest := Pages(list, p, counts), counts[1..];
    PageNext(list, p, counts[0]);
    var p' := Next(list, p, counts[0]);
    PagesFirst(list, p, counts);
    var first, later := Page(list, p, counts[0]), Pages(list, p', rest);
    if i == 0 {
      assert pages[..i] == [];
      RecordsEnd(list);
      ConcatNone();
      if j > 0 { AtEnd(list, rest, j - 1); }
    } else {
      assert pages[0] == first != [];
      LaterPages(first, later, i);
      assert forall k :: 0 <= k <= i - 1 ==> rest[k] == counts[k + 1];
      PagesComplete(list, p', rest, i - 1, j - 1);
    }
  }

  lemma PagesFirst(list: seq<Dirent>, p: Position, counts: seq<nat>)
    requires Done(p) <= |list| && counts != [] && Done(Next(list, p, counts[0])) <= |list|
    ensures Pages(list, p, counts) == [Page(list, p, counts[0])] + Pages(list, Next(list, p, counts[0]), counts[1..])
  {
    hide Page, Next;
  }

  lemma ConcatNone()
    ensures Concat([]) == []
  {}

  lemma LaterPages(first: seq<Dirent>, later: seq<seq<Dirent>>, i: nat)
    requires 0 < i <= |later|
    ensures Concat(([first] + later)[..i]) == first + Concat(later[..i - 1])
    ensures forall k :: 0 <= k < |later| ==> later[k] == ([first] + later)[k + 1]
  {
    var a := ([first] + later)[..i];
    assert a[0] == first && a[1..] == later[..i - 1];
  }

  lemma RecordsEnd(list: seq<Dirent>)
    ensures Records(list[|list|..]) == []
  {}

  /** The listing ends: as many calls as there are records, and one more, reach an empty page. */
  lemma {:induction false} PagesEnd(list: seq<Dirent>, p: Position, counts: seq<nat>) returns (i: nat)
    requires Done(p) <= |list| && |counts| > |Records(list[Done(p)..])|
    requires forall k :: 0 <= k < |counts| ==> Roomy(list, counts[k])
    ensures i < |counts| && Pages(list, p, counts)[i] == []
    decreases |counts|
  {
    PageNext(list, p, counts[0]);
    if Page(list, p, counts[0]) == [] {
      i := 0;
    } else {
      i := PagesEnd(list, Next(list, p, counts[0]), counts[1..]);
      i := i + 1;
    }
  }

  /**
    The first call loses the whole listing exactly when its buffer is not
    larger than the first record: it returns nothing and so does every later
    call, whatever its buffer.
   */
  lemma FirstCallLoses(list: seq<Dirent>, count: nat, counts: seq<nat>)
    requires list != []
    ensures count <= list[0].reclen <==> Fits(list, 0, count) == 0
    ensures count <= list[0].reclen ==>
              && Page(list, Unread, count) == []
              && forall i :: 0 <= i < |counts| ==> Pages(list, Next(list, Unread, count), counts)[i] == []
  {
    assert list[0..] == list;
    if count <= list[0].reclen {
      assert list[..0] == [];
      forall i | 0 <= i < |counts| ensures Pages(list, Next(list, Unread, count), counts)[i] == [] {
        AtEnd(list, counts, i);
      }
    }
  }

  /** A later call with too small a buffer returns nothing and keeps its place. */
  lemma LaterCallWaits(list: seq<Dirent>, n: nat, count: nat)
    requires n < |list| && count <= list[n].reclen
    ensures Page(list, At(n), count) == [] && Next(list, At(n), count) == At(n)
  {
    assert list[n..][0] == list[n];
    assert list[n..][..0] == [];
  }

  lemma ShownFirst(list: seq<Dirent>)
    requires list != []
    ensures Names(list) == {list[0].name} + Names(list[1..])
    ensures Shown(list) == (if list[0].reclen > 0 then {list[0].name} else {}) + Shown(list[1..])
  {
    var r := list[1..];
    forall i | 0 <= i < |r| ensures r[i] == list[i + 1] {}
    forall n | n in Names(list) ensures n == list[0].name || n in Names(r) {
      var i :| 0 <= i < |list| && list[i].name == n;
      if i > 0 { assert r[i - 1] == list[i]; }
    }
    forall n | n in Shown(list) ensures n in (if list[0].reclen > 0 then {list[0].name} else {}) + Shown(r) {
      var i :| 0 <= i < |list| && list[i].reclen > 0 && list[i].name == n;
      if i > 0 { assert r[i - 1] == list[i]; }
    }
  }

  /** The records handed out are those of the names shown, each once when the list has each name once. */
  lemma {:induction false} RecordsShown(list: seq<Dirent>)
    ensures Names(Records(list)) == Shown(list)
    ensures Distinct(list) ==> Distinct(Records(list))
  {
    if list == [] {
      NamesNone();
    } else {
      var rest := list[1..];
      RecordsShown(rest);
      ShownFirst(list);
      assert forall i :: 0 <= i < |rest| ==> rest[i] == list[i + 1];
      if list[0].reclen > 0 {
        var r := Records(list);
        assert r[1..] == Records(rest);
        ShownFirst(r);
        if Distinct(list) { DistinctFirst(list, r); }
      }
    }
  }

  lemma DistinctFirst(list: seq<Dirent>, r: seq<Dirent>)
    requires list != [] && r != [] && Distinct(list) && r[0].name == list[0].name
    requires Distinct(r[1..]) && Names(r[1..]) <= Names(list[1..])
    ensures Distinct(r)
  {
    var rest, tail := list[1..], r[1..];
    forall j | 0 < j < |r| ensures r[0].name != r[j].name {
      assert tail[j - 1] == r[j] && tail[j - 1].name in Names(tail);
      var i :| 0 <= i < |rest| && rest[i].name == r[j].name;
      assert rest[i] == list[i + 1];
    }
    forall i, j | 0 <= i < j < |r| ensures r[i].name != r[j].name {
      if i > 0 { assert tail[i - 1] == r[i] && tail[j - 1] == r[j]; }
    }
  }

  /** Every record is that of an entry that is shown. */
  lemma {:induction false} RecordsFrom(list: seq<Dirent>, k: nat) returns (i: nat)
    requires k < |Records(list)|
    ensures i < |list| && list[i].reclen > 0 && Records(list)[k] == Record(list[i])
  {
    if list[0].reclen > 0 && k == 0 {
      i := 0;
    } else {
      i := RecordsFrom(list[1..], if list[0].reclen > 0 then k - 1 else k);
      i := i + 1;
    }
  }

  /** A record gives the type and inode that a directory has for its name, with 2 for an inode of 0. */
  ghost predicate Reports(e: Dirent, raws: seq<Raw>) {
    exists i :: 0 <= i < |raws| &&
      raws[i].name == e.name && raws[i].dtype == e.dtype && e.ino == if raws[i].ino == 0 then 2 else raws[i].ino
  }

  /**
    What a program that reads a merged directory with large enough buffers sees:
    until the first empty page, each name a lookup finds, once, and no other
    (apart from the hidden name at the root), and with each the type and inode
    of the directory that it is listed from.
   */
  lemma ListingIsLookup(d: Dir, counts: seq<nat>, i: nat, name: string)
    requires RawDistinct(d.virtual) && RawDistinct(d.wiped) && RawDistinct(d.under)
    requires i < |counts| && forall k :: 0 <= k <= i ==> Roomy(Merged(d), counts[k])
    requires Pages(Merged(d), Unread, counts)[i] == []
    requires forall k :: 0 <= k < i ==> Pages(Merged(d), Unread, counts)[k] != []
    requires name != HIDDEN || !d.root
    ensures var seen := Concat(Pages(Merged(d), Unread, counts)[..i]);
      && Distinct(seen) && (name in Names(seen) <==> Lookup(d, name))
      && forall k :: 0 <= k < |seen| ==> Reports(seen[k], Origin(d, seen[k].name)) && Sized(seen[k])
  {
    hide Merged, Pages, Concat, Records, Names, Shown, Distinct, Roomy, Lookup, Origin, Sized, Reports;
    var list := Merged(d);
    PagesComplete(list, Unread, counts, i, i);
    assert list[0..] == list;
    RecordsShown(list);
    MergedDistinct(d);
    ListedIffFound(d, name);
    var seen := Records(list);
    forall k | 0 <= k < |seen| ensures Reports(seen[k], Origin(d, seen[k].name)) && Sized(seen[k]) {
      var j := RecordsFrom(list, k);
      MergedTells(d, j);
      RecordReports(list[j], Origin(d, list[j].name));
    }
  }

  lemma RecordReports(e: Dirent, raws: seq<Raw>)
    requires Tells(e, raws)
    ensures Reports(Record(e), raws) && Record(e).name == e.name && (Sized(e) ==> Sized(Record(e)))
  {}
}

/** The circular list of a merged directory, and an open directory that reads it. */
module ViewFs {
  import opened ViewFsSpec
  import opened Paging

  class Node {
    const de: Dirent
    var next: Node

    constructor (de: Dirent)
      ensures this.de == de && next == this
    {
      this.de := de;
      next := this;
    }
  }

  function List(nodes: seq<Node>): (l: seq<Dirent>)
    ensures |l| == |nodes| && forall i :: 0 <= i < |l| ==> l[i] == nodes[i].de
  {
    seq(|nodes|, i requires 0 <= i < |nodes| => nodes[i].de)
  }

  /** The nodes form one circle, in order. */
  ghost predicate Ring(nodes: seq<Node>)
    reads nodes
  {
    && (forall i, j :: 0 <= i < j < |nodes| ==> nodes[i] != nodes[j])
    && (forall i :: 0 <= i < |nodes| - 1 ==> nodes[i].next == nodes[i + 1])
    && (nodes != [] ==> nodes[|nodes| - 1].next == nodes[0])
  }

  ghost function Tail(nodes: seq<Node>): Node? {
    if nodes == [] then null else nodes[|nodes| - 1]
  }

  /** Whether none of the first m entries has the name; oldtail is the last of them. */
  method MergeNewEntry(name: string, tail: Node?, oldtail: Node?, ghost nodes: seq<Node>, ghost m: nat)
    returns (r: bool)
    requires Ring(nodes) && m <= |nodes| && tail == Tail(nodes) && oldtail == Tail(nodes[..m])
    ensures r <==> name !in Names(List(nodes[..m]))
  {
    if oldtail != null {
      var t := tail;
      ghost var k := 0;
      ghost var l := List(nodes[..m]);
      while true
        invariant 0 <= k < m && t != null && t.next == nodes[k]
        invariant forall i :: 0 <= i < k ==> l[i].name != name
        decreases m - k
      {
        var next := t.next;
        if next.de.name == name {
          assert l[k].name in Names(l);
          return false;
        }
        t := next;
        k := k + 1;
        if t == oldtail {
          break;
        }
      }
    }
    return true;
  }

  /** The entries that getdents delivers, call by call, until a call delivers none. */
  function Stream(chunks: seq<seq<Raw>>): seq<Raw> {
    if chunks == [] || chunks[0] == [] then [] else chunks[0] + Stream(chunks[1..])
  }

  lemma StreamFirst(a: seq<seq<Raw>>, b: seq<seq<Raw>>)
    requires a != [] && a[0] != []
    ensures Stream(a + b) == a[0] + Stream(a[1..] + b)
  {
    assert (a + b)[1..] == a[1..] + b;
  }

  /** Calls that deliver something are read one after the other, and none after a call that delivers nothing. */
  lemma {:induction false} StreamLaws(a: seq<seq<Raw>>, b: seq<seq<Raw>>)
    requires [] !in a
    ensures Stream(a + b) == Stream(a) + Stream(b)
    ensures |a| == 1 ==> Stream(a) == a[0]
    ensures Stream([[]] + b) == []
  {
    if a == [] {
      assert a + b == b;
    } else {
      assert a[0] in a;
      StreamFirst(a, b);
      StreamLaws(a[1..], b);
    }
  }

  /** Adds an entry after the last one. */
  method Append(head: Node?, de: Dirent, ghost nodes: seq<Node>) returns (r: Node, ghost nodes': seq<Node>)
    requires Ring(nodes) && head == Tail(nodes)
    modifies nodes
    ensures fresh(r) && nodes' == nodes + [r] && Ring(nodes') && List(nodes') == List(nodes) + [de]
  {
    r := new Node(de);
    if head != null {
      r.next := head.next;
      head.next := r;
    }
    nodes' := nodes + [r];
  }

  /** Adds the entries of one getdents call, of which rest are still to come in later calls. */
  method AddChunk(head: Node?, oldtail: Node?, start: int, chunk: seq<Raw>, wipe: bool, root: bool,
                  ghost nodes: seq<Node>, ghost m: nat, ghost rest: seq<Raw>)
    returns (r: Node?, offset: int, ghost nodes': seq<Node>)
    requires Ring(nodes) && head == Tail(nodes) && m <= |nodes| && oldtail == Tail(nodes[..m])
    modifies nodes
    ensures Ring(nodes') && r == Tail(nodes') && Extends(nodes, nodes')
    ensures forall i :: |nodes| <= i < |nodes'| ==> fresh(nodes'[i])
    ensures var base := List(nodes[..m]);
      Layer(base, List(nodes), start, chunk + rest, wipe, root) == Layer(base, List(nodes'), offset, rest, wipe, root)
  {
    hide Layer, Ring, List, Names;
    r, offset, nodes' := head, start, nodes;
    ghost var base := List(nodes[..m]);
    ghost var target := Layer(base, List(nodes), start, chunk + rest, wipe, root);
    var i := 0;
    assert chunk[0..] == chunk;
    while i < |chunk|
      invariant 0 <= i <= |chunk| && Ring(nodes') && r == Tail(nodes') && |nodes| <= |nodes'|
      invariant nodes'[..|nodes|] == nodes && forall i :: |nodes| <= i < |nodes'| ==> fresh(nodes'[i])
      invariant target == Layer(base, List(nodes'), offset, chunk[i..] + rest, wipe, root)
    {
      var de := chunk[i];
      LayerNext(base, List(nodes'), offset, chunk, i, rest, wipe, root);
      assert nodes'[..m] == nodes[..m];
      var joins := !(wipe && de.dtype != DT_REG);
      if joins {
        joins := MergeNewEntry(de.name, r, oldtail, nodes', m);
      }
      if joins && (!root || de.name != HIDDEN) {
        var e := Make(de, offset, wipe);
        r, nodes' := Append(r, e, nodes');
        offset := Advance(de, offset, wipe);
      }
      i := i + 1;
    }
    assert chunk[i..] + rest == rest;
  }

  lemma LayerNext(base: seq<Dirent>, list: seq<Dirent>, offset: int, chunk: seq<Raw>, i: nat, rest: seq<Raw>,
                  wipe: bool, root: bool)
    requires i < |chunk|
    ensures Layer(base, list, offset, chunk[i..] + rest, wipe, root) ==
            if Joins(base, chunk[i], wipe, root) then
              Layer(base, list + [Make(chunk[i], offset, wipe)], Advance(chunk[i], offset, wipe),
                    chunk[i + 1..] + rest, wipe, root)
            else Layer(base, list, offset, chunk[i + 1..] + rest, wipe, root)
  {
    var raws := chunk[i..] + rest;
    assert raws[0] == chunk[i] && raws[1..] == chunk[i + 1..] + rest;
  }

  /** Adds a layer to the list; without a descriptor the list is lost. */
  method AddDirInfo(fd: int, head: Node?, chunks: seq<seq<Raw>>, wipe: bool, root: bool, ghost nodes: seq<Node>)
    returns (r: Node?, ghost nodes': seq<Node>)
    requires Ring(nodes) && head == Tail(nodes)
    modifies nodes
    ensures Ring(nodes') && r == Tail(nodes')
    ensures forall i :: 0 <= i < |nodes'| ==> nodes'[i] in nodes || fresh(nodes'[i])
    ensures List(nodes') == if fd == 0 then [] else AddLayer(List(nodes), Stream(chunks), wipe, root)
  {
    hide Layer, Ring, List, Stream, Tail;
    if fd == 0 {
      NoNodes();
      return null, [];
    }
    var oldtail, offset := head, 0;
    if head != null {
      offset := head.de.off + WordAlign(12 + |head.de.name|);
    }
    r, nodes' := head, nodes;
    ghost var base := List(nodes);
    ghost var m := |nodes|;
    StartOf(nodes);
    var k := 0;
    assert chunks[0..] == chunks;
    while k < |chunks| && chunks[k] != []
      invariant 0 <= k <= |chunks| && Ring(nodes') && r == Tail(nodes') && Extends(nodes, nodes')
      invariant forall i :: m <= i < |nodes'| ==> fresh(nodes'[i])
      invariant AddLayer(base, Stream(chunks), wipe, root)
             == Layer(base, List(nodes'), offset, Stream(chunks[k..]), wipe, root)
    {
      StreamNext(chunks, k);
      ghost var before := nodes';
      r, offset, nodes' := AddChunk(r, oldtail, offset, chunks[k], wipe, root, before, m, Stream(chunks[k + 1..]));
      Further(nodes, before, nodes');
      k := k + 1;
    }
    StreamEnd(chunks, k);
    LayerNone(base, List(nodes'), offset, wipe, root);
  }

  /** The nodes start with those that were there. */
  ghost predicate Extends(nodes: seq<Node>, nodes': seq<Node>) {
    |nodes| <= |nodes'| && nodes'[..|nodes|] == nodes
  }

  lemma Further(nodes: seq<Node>, before: seq<Node>, after: seq<Node>)
    requires Extends(nodes, before) && Extends(before, after)
    ensures Extends(nodes, after)
    ensures forall i :: 0 <= i < |before| ==> after[i] == before[i]
  {
    assert forall i :: 0 <= i < |before| ==> after[i] == after[..|before|][i];
  }

  lemma NoNodes()
    ensures Ring([]) && Tail([]) == null && List([]) == []
  {}

  lemma StartOf(nodes: seq<Node>)
    ensures Tail(nodes) == null <==> nodes == []
    ensures nodes == [] ==> Start(List(nodes)) == 0
    ensures nodes != [] ==>
              Tail(nodes) == nodes[|nodes| - 1] &&
              Start(List(nodes)) == Tail(nodes).de.off + WordAlign(12 + |Tail(nodes).de.name|)
    ensures nodes[..|nodes|] == nodes
  {}

  lemma StreamNext(chunks: seq<seq<Raw>>, k: nat)
    requires k < |chunks| && chunks[k] != []
    ensures Stream(chunks[k..]) == chunks[k] + Stream(chunks[k + 1..])
  {
    assert chunks[k..][1..] == chunks[k + 1..];
  }

  lemma StreamEnd(chunks: seq<seq<Raw>>, k: nat)
    requires k <= |chunks| && (k < |chunks| ==> chunks[k] == [])
    ensures Stream(chunks[k..]) == []
  {}

  lemma LayerNone(base: seq<Dirent>, list: seq<Dirent>, offset: int, wipe: bool, root: bool)
    ensures Layer(base, list, offset, [], wipe, root) == list
  {}

  /** What the kernel answers about the three directories: a descriptor, or -1, and the getdents calls on it. */
  datatype Source = Source(fd: int, chunks: seq<seq<Raw>>)
  datatype Sources = Sources(virtual: Source, wiped: Source, under: Source, merge: bool, root: bool)

  /** The entries of a directory, none if it could not be opened. */
  function Content(s: Source): seq<Raw> {
    if s.fd < 0 then [] else Stream(s.chunks)
  }

  function DirOf(k: Sources): Dir {
    Dir(Content(k.virtual), Content(k.wiped), Content(k.under), k.merge, k.root)
  }

  /** No directory was opened on descriptor 0, which the module takes for none. */
  predicate Usable(k: Sources) {
    k.virtual.fd > 0 && (k.merge ==> k.wiped.fd != 0 && k.under.fd != 0)
  }

  /** The list after a layer; a directory on descriptor 0 loses it. */
  function Added(list: seq<Dirent>, s: Source, wipe: bool, root: bool): seq<Dirent> {
    if s.fd == 0 then [] else AddLayer(list, Stream(s.chunks), wipe, root)
  }

  /** The list that is built, whatever the descriptors. */
  function Filled(k: Sources): seq<Dirent> {
    var l1 := Added([], k.virtual, false, k.root);
    var l2 := if !k.merge || k.wiped.fd < 0 then l1 else Added(l1, k.wiped, true, false);
    if !k.merge || k.under.fd < 0 then l2 else Added(l2, k.under, false, false)
  }

  /** Off descriptor 0 it is the merged list of the directories that could be opened. */
  lemma FilledMerged(k: Sources)
    requires Usable(k)
    ensures Filled(k) == Merged(DirOf(k))
  {
    hide AddLayer;
    AddNothing();
  }

  /** The list of a directory: virtual entries first, then wiped names, then real entries. */
  method FillDirInfo(k: Sources) returns (r: Node?, ghost nodes: seq<Node>)
    ensures Ring(nodes) && r == Tail(nodes) && forall i :: 0 <= i < |nodes| ==> fresh(nodes[i])
    ensures List(nodes) == Filled(k)
  {
    hide AddLayer, Ring, List, Tail, Stream;
    NoNodes();
    nodes := [];
    r, nodes := AddDirInfo(k.virtual.fd, null, k.virtual.chunks, false, k.root, nodes);
    assert forall i :: 0 <= i < |nodes| ==> fresh(nodes[i]);
    if k.merge {
      if k.wiped.fd >= 0 {
        r, nodes := AddDirInfo(k.wiped.fd, r, k.wiped.chunks, true, false, nodes);
      }
      if k.under.fd >= 0 {
        r, nodes := AddDirInfo(k.under.fd, r, k.under.chunks, false, false, nodes);
      }
    }
  }

  lemma AddNothing()
    ensures forall base, wipe, root :: AddLayer(base, [], wipe, root) == base
  {}

  class OpenDir {
    var dirinfo: Node?
    var dirpos: Node?
    ghost var nodes: seq<Node>
    ghost var pos: Position

    ghost predicate Valid()
      reads this, nodes
    {
      && Ring(nodes) && dirinfo == Tail(nodes)
      && Done(pos) <= |nodes|
      && (pos == Unread ==> dirpos == null)
      && (pos.At? ==> pos.n > 0 && dirpos == nodes[pos.n - 1])
    }

    constructor ()
      ensures Valid() && nodes == [] && pos == Unread
    {
      dirinfo, dirpos, nodes, pos := null, null, [], Unread;
    }

    /**
      Fills a buffer with the next records and returns the bytes used.  The
      list is built when there is none; a directory without entries is asked
      for again.
     */
    method GetDents64(count: nat, k: Sources) returns (curoffs: nat, out: seq<Dirent>)
      requires Valid()
      modifies this
      ensures Valid()
      ensures old(nodes) != [] ==> nodes == old(nodes)
      ensures old(nodes) == [] ==> List(nodes) == Filled(k)
      ensures old(nodes) == [] && Usable(k) ==> List(nodes) == Merged(DirOf(k))
      ensures nodes == [] ==> out == [] && curoffs == 0 && pos == old(pos)
      ensures nodes != [] ==>
                && old(Done(pos)) <= |nodes|
                && out == Page(List(nodes), old(pos), count) && pos == Next(List(nodes), old(pos), count)
      ensures curoffs == Size(out) && (curoffs == 0 || curoffs < count)
    {
      if dirinfo == null {
        dirinfo, nodes := FillDirInfo(k);
        if Usable(k) { FilledMerged(k); }
      }
      if dirinfo == null {
        return 0, [];
      }
      curoffs, out := Walk(count);
    }

    /** Goes on from the current entry until the next one does not fit or the circle closes. */
    method Walk(count: nat) returns (curoffs: nat, out: seq<Dirent>)
      requires Valid() && nodes != []
      modifies this`dirpos, this`pos
      ensures Valid() && out == Page(List(nodes), old(pos), count) && pos == Next(List(nodes), old(pos), count)
      ensures curoffs == Size(out) && (curoffs == 0 || curoffs < count)
    {
      hide Ring, Walked, Page, Next, Size, List;
      ghost var list := List(nodes);
      var current, last := dirinfo, false;
      if dirpos != null {
        current, last := dirpos, dirpos == dirinfo;
        RingAt(nodes, Done(pos) - 1, |nodes| - 1);
      }
      ghost var n: nat;
      curoffs, out, current, n := FillBuffer(current, last, dirinfo, count, nodes, Done(pos));
      ListAt(nodes, n);
      WalkStop(list, count, n, curoffs, out, pos);
      dirpos, pos := current, Next(list, pos, count);
    }
  }

  lemma ListAt(nodes: seq<Node>, n: nat)
    ensures n < |nodes| ==> List(nodes)[n] == nodes[n].de
  {}

  /** Copies records from the entry after current on, up to the tail or to the first that does not fit. */
  method FillBuffer(current: Node, done: bool, tail: Node, count: nat, ghost nodes: seq<Node>, ghost d: nat)
    returns (curoffs: nat, out: seq<Dirent>, dirpos: Node, ghost n: nat)
    requires Ring(nodes) && d <= |nodes| && tail == Tail(nodes) && (done <==> d == |nodes|)
    requires current == if d == 0 then tail else nodes[d - 1]
    ensures d <= n <= |nodes| && dirpos == if n == 0 then tail else nodes[n - 1]
    ensures Walked(List(nodes), d, count, n, curoffs, out)
    ensures n < |nodes| ==> curoffs + nodes[n].de.reclen >= count
  {
    hide Ring, Walked;
    ghost var list := List(nodes);
    var last := done;
    curoffs, out, dirpos, n := 0, [], current, d;
    WalkStart(list, d, count);
    while !last && curoffs + dirpos.next.de.reclen < count
      invariant d <= n <= |list| && (last <==> n == |list|)
      invariant dirpos == if n == 0 then tail else nodes[n - 1]
      invariant Walked(list, d, count, n, curoffs, out)
      decreases |list| - n
    {
      RingNext(nodes, n);
      WalkStep(list, d, count, n, curoffs, out);
      dirpos := dirpos.next;
      if dirpos.de.reclen > 0 {
        out := out + [Record(dirpos.de)];
        curoffs := curoffs + dirpos.de.reclen;
      }
      RingAt(nodes, n, |nodes| - 1);
      n := n + 1;
      last := dirpos == tail;
    }
    if n < |list| { RingNext(nodes, n); }
  }

  lemma RingNext(nodes: seq<Node>, n: nat)
    requires Ring(nodes) && n < |nodes|
    ensures (if n == 0 then nodes[|nodes| - 1] else nodes[n - 1]).next == nodes[n]
  {}

  lemma RingAt(nodes: seq<Node>, i: nat, j: nat)
    requires Ring(nodes) && i < |nodes| && j < |nodes|
    ensures nodes[i] == nodes[j] <==> i == j
  {}

  /** A call that started at entry d has put the records of the entries up to n into the buffer. */
  ghost predicate Walked(list: seq<Dirent>, d: nat, count: nat, n: nat, used: nat, out: seq<Dirent>) {
    && d <= n <= |list| && used == Size(out) && (used == 0 || used < count)
    && out == Records(list[d..n])
    && d + Fits(list[d..], 0, count) == n + Fits(list[n..], used, count)
  }

  lemma WalkStart(list: seq<Dirent>, d: nat, count: nat)
    requires d <= |list|
    ensures Walked(list, d, count, d, 0, [])
  {
    assert list[d..d] == [];
  }

  lemma WalkStep(list: seq<Dirent>, d: nat, count: nat, n: nat, used: nat, out: seq<Dirent>)
    requires Walked(list, d, count, n, used, out) && n < |list| && used + list[n].reclen < count
    ensures list[n].reclen > 0 ==> Walked(list, d, count, n + 1, used + list[n].reclen, out + [Record(list[n])])
    ensures list[n].reclen == 0 ==> Walked(list, d, count, n + 1, used, out)
  {
    hide Records, Fits, Size;
    FitsStep(list, n, used, count);
    RecordsStep(list, d, n);
    SizeSnoc(out, Record(list[n]));
  }

  lemma WalkStop(list: seq<Dirent>, count: nat, n: nat, used: nat, out: seq<Dirent>, p: Position)
    requires Done(p) <= |list| && Walked(list, Done(p), count, n, used, out)
    requires n < |list| ==> used + list[n].reclen >= count
    ensures out == Page(list, p, count) && used == Size(out) && (used == 0 || used < count)
    ensures Next(list, p, count) == if p == Unread && n == 0 then At(|list|) else At(n)
  {
    hide Records, Size;
    FitsStop(list, Done(p), n, used, count, p);
  }

  lemma FitsStep(list: seq<Dirent>, n: nat, used: nat, count: nat)
    requires n < |list| && used + list[n].reclen < count
    ensures Fits(list[n..], used, count) == 1 + Fits(list[n + 1..], used + list[n].reclen, count)
  {
    assert list[n..][1..] == list[n + 1..];
  }

  lemma RecordsStep(list: seq<Dirent>, d: nat, n: nat)
    requires d <= n < |list|
    ensures Records(list[d..n + 1]) == Records(list[d..n]) + if list[n].reclen > 0 then [Record(list[n])] else []
  {
    hide Records;
    assert list[d..n + 1] == list[d..n] + [list[n]];
    RecordsConcat(list[d..n], [list[n]]);
    RecordsOne(list[n]);
  }

  lemma RecordsOne(e: Dirent)
    ensures Records([e]) == if e.reclen > 0 then [Record(e)] else []
  {}

  lemma {:induction false} SizeSnoc(out: seq<Dirent>, e: Dirent)
    ensures Size(out + [e]) == Size(out) + e.reclen
  {
    if out == [] {
      assert out + [e] == [e];
    } else {
      assert (out + [e])[1..] == out[1..] + [e];
      SizeSnoc(out[1..], e);
    }
  }

  lemma FitsStop(list: seq<Dirent>, d: nat, n: nat, used: nat, count: nat, p: Position)
    requires d == Done(p) <= n <= |list| && (n < |list| ==> used + list[n].reclen >= count)
    requires d + Fits(list[d..], 0, count) == n + Fits(list[n..], used, count)
    ensures Page(list, p, count) == Records(list[d..n])
    ensures Next(list, p, count) == if p == Unread && n == 0 then At(|list|) else At(n)
  {
    assert Fits(list[n..], used, count) == 0;
    assert list[d..][..n - d] == list[d..n];
  }
}
