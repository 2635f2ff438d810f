/**
  The thread-id allocator of the kmview module: ids are handed out in O(1) from
  a free list threaded through the slots of a two-level table.
 */
module KmpidSpec {
  type Thread = nat  // the address of a thread structure

  /** The abstract allocator: ids below n, the free ones as a stack, the others naming a thread. */
  datatype Ids = Ids(n: nat, free: seq<nat>, live: map<nat, Thread>)

  /** The free list is acyclic and holds exactly the ids below n that name no thread. */
  ghost predicate Good(s: Ids) {
    && (forall i, j :: 0 <= i < j < |s.free| ==> s.free[i] != s.free[j])
    && (forall x :: x in s.free ==> x < s.n && x !in s.live)
    && (forall x :: x in s.live ==> x < s.n)
    && (forall x: nat :: x < s.n && x !in s.live ==> x in s.free)
  }

  const EMPTY := Ids(0, [], map[])

  /** The id the next allocation returns. */
  function Next(s: Ids): nat {
    if s.free != [] then s.free[0] else s.n
  }

  function Alloc(s: Ids, t: Thread): Ids {
    if s.free != [] then Ids(s.n, s.free[1..], s.live[s.free[0] := t])
    else Ids(s.n + 1, [], s.live[s.n := t])
  }

  function Free(s: Ids, id: nat): Ids {
    Ids(s.n, [id] + s.free, s.live - {id})
  }

  /** Allocation names a thread by an id no live thread has. */
  lemma AllocGood(s: Ids, t: Thread)
    requires Good(s)
    ensures Next(s) !in s.live
    ensures Good(Alloc(s, t)) && Alloc(s, t).live == s.live[Next(s) := t]
  {
    if s.free != [] {
      var id, rest := s.free[0], s.free[1..];
      assert id in s.free;
      forall i | 0 <= i < |rest| ensures rest[i] in s.free && rest[i] != id && rest[i] == s.free[i + 1] {}
      forall x: nat | x < s.n && x !in s.live && x != id ensures x in rest {
        var i :| 0 <= i < |s.free| && s.free[i] == x;
        assert rest[i - 1] == x;
      }
    }
  }

  lemma FreeGood(s: Ids, id: nat)
    requires Good(s) && id in s.live
    ensures Good(Free(s, id)) && Free(s, id).live == s.live - {id}
  {
    var f := [id] + s.free;
    forall i, j | 0 <= i < j < |f| ensures f[i] != f[j] {
      assert f[j] == s.free[j - 1];
      assert s.free[j - 1] in s.free;
      if i > 0 { assert f[i] == s.free[i - 1]; }
    }
    forall x: nat | x < s.n && x !in s.live - {id} ensures x in f {
      if x != id { assert x in s.free; }
      assert f[0] == id;
    }
  }

  /** The table grows exactly when every id below its end is live; an id freed last is handed out first. */
  lemma AllocReuses(s: Ids, t: Thread, id: nat)
    requires Good(s) && id in s.live
    ensures Alloc(s, t).n > s.n <==> forall x: nat :: x < s.n ==> x in s.live
    ensures Next(Free(s, id)) == id && Alloc(Free(s, id), t) == Ids(s.n, s.free, s.live[id := t])
  {
    if s.free != [] {
      assert s.free[0] in s.free;
    }
    var f := [id] + s.free;
    assert f[1..] == s.free;
    assert (s.live - {id})[id := t] == s.live[id := t];
  }

  datatype Op = Get(t: Thread) | Put(id: nat)

  /** The history of an allocator that is only asked to free live ids. */
  ghost predicate Run(s: Ids, ops: seq<Op>, s': Ids)
    decreases |ops|
  {
    if ops == [] then s' == s else
      match ops[0]
      case Get(t) => Run(Alloc(s, t), ops[1..], s')
      case Put(id) => id in s.live && Run(Free(s, id), ops[1..], s')
  }

  lemma {:induction false} RunGood(s: Ids, ops: seq<Op>, s': Ids)
    requires Good(s) && Run(s, ops, s')
    ensures Good(s')
    decreases |ops|
  {
    if ops != [] {
      match ops[0]
      case Get(t) =>
        AllocGood(s, t);
        RunGood(Alloc(s, t), ops[1..], s');
      case Put(id) =>
        FreeGood(s, id);
        RunGood(Free(s, id), ops[1..], s');
    }
  }

  /**
    Every id that is live throughout keeps naming the same thread: as long as
    nobody frees it, no allocation hands it out again.
   */
  lemma {:induction false} RunKeepsLive(s: Ids, ops: seq<Op>, s': Ids, id: nat)
    requires Good(s) && Run(s, ops, s') && id in s.live
    requires forall i :: 0 <= i < |ops| ==> ops[i] != Put(id)
    ensures id in s'.live && s'.live[id] == s.live[id]
    decreases |ops|
  {
    if ops != [] {
      match ops[0]
      case Get(t) =>
        AllocGood(s, t);
        RunKeepsLive(Alloc(s, t), ops[1..], s', id);
      case Put(other) =>
        FreeGood(s, other);
        RunKeepsLive(Free(s, other), ops[1..], s', id);
    }
  }
}

module Kmpid {
  import opened KmpidSpec
  import opened Wrappers

  const ALLOCUNIT := 1024

  datatype Slot = Slot(thread: Option<Thread>, next: int)

  /** Slot id of a table that stands for the allocator s. */
  ghost predicate SlotOk(slots: seq<Slot>, s: Ids, id: nat)
    requires id < |slots|
  {
    slots[id].thread == if id in s.live then Some(s.live[id]) else None
  }

  /** Element i of the free list points to the next one. */
  ghost predicate LinkOk(slots: seq<Slot>, free: seq<nat>, i: nat)
    requires i < |free|
  {
    free[i] < |slots| && slots[free[i]].next == if i + 1 < |free| then free[i + 1] else -1
  }

  /** The free list runs through the slots in order. */
  ghost predicate Linked(slots: seq<Slot>, freehead: int, free: seq<nat>) {
    && freehead == (if free == [] then -1 else free[0])
    && forall i :: 0 <= i < |free| ==> LinkOk(slots, free, i)
  }

  ghost predicate Refines(slots: seq<Slot>, freehead: int, s: Ids) {
    && Good(s) && s.n == |slots|
    && (forall id :: 0 <= id < |slots| ==> SlotOk(slots, s, id))
    && Linked(slots, freehead, s.free)
  }

  lemma RefinesGood(slots: seq<Slot>, freehead: int, s: Ids, t: Thread)
    requires Refines(slots, freehead, s)
    ensures freehead >= 0 <==> s.free != []
    ensures Next(s) !in s.live && s.n == |slots|
  {
    AllocGood(s, t);
  }

  lemma RefinesBound(slots: seq<Slot>, freehead: int, s: Ids)
    requires Refines(slots, freehead, s)
    ensures s.n == |slots| && forall id :: id in s.live ==> id < |slots|
  {
  }

  lemma RefinesFree(slots: seq<Slot>, freehead: int, s: Ids, id: nat)
    requires Refines(slots, freehead, s) && id in s.live
    ensures Refines(slots[id := Slot(None, freehead)], id, KmpidSpec.Free(s, id))
  {
    FreeGood(s, id);
    var slots', free' := slots[id := Slot(None, freehead)], [id] + s.free;
    forall i | 0 <= i < |free'| ensures LinkOk(slots', free', i) {
      if i > 0 {
        assert LinkOk(slots, s.free, i - 1);
        assert s.free[i - 1] in s.free;
      }
    }
    forall x | 0 <= x < |slots| ensures SlotOk(slots', KmpidSpec.Free(s, id), x) {
      assert SlotOk(slots, s, x);
    }
  }

  /** After a second free of an id the free list runs in a circle, so it belongs to no allocator. */
  lemma FreedTwice(slots: seq<Slot>, freehead: int, s: Ids, id: nat, s': Ids)
    requires Refines(slots, freehead, s) && id < |slots| && id !in s.live
    ensures !Refines(slots[id := Slot(None, freehead)], id, s')
  {
    var slots' := slots[id := Slot(None, freehead)];
    if Refines(slots', id, s') {
      assert id in s.free;
      var i :| 0 <= i < |s.free| && s.free[i] == id;
      assert LinkOk(slots', s'.free, 0);
      SameLinks(slots, s.free, slots', s'.free, id, i, i);
      assert false;
    }
  }

  /** Behind the id freed twice comes the old free list, up to that id. */
  lemma {:induction false} SameLinks(slots: seq<Slot>, free: seq<nat>, slots': seq<Slot>, free': seq<nat>,
                                     id: nat, i: nat, j: nat)
    requires j <= i < |free| && free[i] == id && forall k :: 0 <= k < i ==> free[k] != id
    requires |slots'| == |slots| && id < |slots| && forall x :: 0 <= x < |slots| && x != id ==> slots'[x] == slots[x]
    requires forall k :: 0 <= k < |free| ==> LinkOk(slots, free, k)
    requires forall k :: 0 <= k < |free'| ==> LinkOk(slots', free', k)
    requires free' != [] && free'[0] == id && slots'[id].next == free[0]
    ensures 1 + j < |free'| && free'[1 + j] == free[j]
    decreases j
  {
    if j == 0 {
      assert LinkOk(slots', free', 0);
    } else {
      SameLinks(slots, free, slots', free', id, i, j - 1);
      assert LinkOk(slots, free, j - 1);
      assert LinkOk(slots', free', j);
    }
  }

  lemma RefinesPop(slots: seq<Slot>, freehead: int, s: Ids, t: Thread)
    requires Refines(slots, freehead, s) && s.free != []
    ensures freehead == Next(s) < |slots|
    ensures Refines(slots[freehead := slots[freehead].(thread := Some(t))], slots[freehead].next, KmpidSpec.Alloc(s, t))
  {
    AllocGood(s, t);
    var slots', free' := slots[freehead := slots[freehead].(thread := Some(t))], s.free[1..];
    assert LinkOk(slots, s.free, 0);
    forall i | 0 <= i < |free'| ensures LinkOk(slots', free', i) {
      assert LinkOk(slots, s.free, i + 1);
    }
    forall x | 0 <= x < |slots| ensures SlotOk(slots', KmpidSpec.Alloc(s, t), x) {
      assert SlotOk(slots, s, x);
    }
  }

  lemma RefinesPush(slots: seq<Slot>, freehead: int, s: Ids, t: Thread, next: int)
    requires Refines(slots, freehead, s) && s.free == []
    ensures Next(s) == |slots|
    ensures Refines(slots + [Slot(Some(t), next)], freehead, KmpidSpec.Alloc(s, t))
  {
    AllocGood(s, t);
    var slots' := slots + [Slot(Some(t), next)];
    assert KmpidSpec.Alloc(s, t).free == [];
    forall x | 0 <= x < |slots'| ensures SlotOk(slots', KmpidSpec.Alloc(s, t), x) {
      if x < |slots| { assert SlotOk(slots, s, x); }
    }
  }

  class Table {
    var head: array?<array?<Slot>>
    var maxhead: nat
    var nhead: nat
    var nthread: nat
    var freehead: int
    ghost var pages: seq<array<Slot>>
    ghost var slots: seq<Slot>
    ghost var ids: Ids

    /** The two-level table: nhead pages that hold the slots, and no page too many. */
    ghost predicate Shape()
      reads this`head, this`maxhead, this`nhead, this`nthread, this`pages, this`slots, head, pages
      ensures Shape() ==> nthread == |slots|
    {
      Pages() && nhead * ALLOCUNIT < nthread + ALLOCUNIT && (head == null <==> nthread == 0)
    }

    ghost predicate Pages()
      reads this`head, this`maxhead, this`nhead, this`nthread, this`pages, this`slots, head, pages
    {
      && (head == null ==> maxhead == 0) && (head != null ==> head.Length == maxhead)
      && nhead == |pages| <= maxhead
      && (forall i :: 0 <= i < nhead ==> head[i] == pages[i] && pages[i].Length == ALLOCUNIT)
      && (forall i, j :: 0 <= i < j < nhead ==> pages[i] != pages[j])
      && nthread == |slots| <= nhead * ALLOCUNIT
      && (forall id :: 0 <= id < nthread ==> pages[id / ALLOCUNIT][id % ALLOCUNIT] == slots[id])
    }

    ghost predicate Valid()
      reads this, head, pages
    {
      Shape() && Refines(slots, freehead, ids)
    }

    constructor ()
      ensures Valid() && ids == EMPTY
    {
      head, freehead := null, -1;
      maxhead, nhead, nthread := 0, 0, 0;
      pages, slots, ids := [], [], EMPTY;
    }

    /**
      The slot of an id, if the id was ever handed out.  Both indices are in
      bounds unless the id is negative and some id was handed out: then the
      head is read before its start.
     */
    method Find(kmpid: int) returns (page: array?<Slot>, index: nat, wild: bool)
      requires Shape()
      ensures wild <==> kmpid < 0 && nthread > 0
      ensures page != null <==> 0 <= kmpid < nthread
      ensures page != null ==> kmpid / ALLOCUNIT < |pages| && page == pages[kmpid / ALLOCUNIT]
      ensures page != null ==> index == kmpid % ALLOCUNIT < page.Length && page[index] == slots[kmpid]
    {
      page, index, wild := null, kmpid % ALLOCUNIT, false;
      if kmpid < nthread && head != null {
        if kmpid < 0 {
          wild := true;
        } else if head[kmpid / ALLOCUNIT] != null {
          page := head[kmpid / ALLOCUNIT];
        }
      }
    }

    /** Stores a slot that exists. */
    method Store(id: nat, slot: Slot)
      requires Shape() && id < nthread
      modifies this`slots, pages
      ensures Shape() && slots == old(slots)[id := slot]
    {
      var page, index, _ := Find(id);
      page[index] := slot;
      slots := slots[id := slot];
      forall x | 0 <= x < nthread ensures pages[x / ALLOCUNIT][x % ALLOCUNIT] == slots[x] {
        if x != id {
          assert x / ALLOCUNIT != id / ALLOCUNIT || x % ALLOCUNIT != id % ALLOCUNIT;
        }
      }
    }

    /** Finds the thread of an id: succeeds exactly on live ids, and reads out of bounds exactly where Find does. */
    method Search(kmpid: int) returns (r: Option<Thread>, wild: bool)
      requires Valid()
      ensures wild <==> kmpid < 0 && ids.n > 0
      ensures r == if 0 <= kmpid && kmpid in ids.live then Some(ids.live[kmpid]) else None
    {
      RefinesBound(slots, freehead, ids);
      var page, index: nat;
      page, index, wild := Find(kmpid);
      if page == null {
        return None, wild;
      }
      assert SlotOk(slots, ids, kmpid);
      return page[index].thread, wild;
    }

    /**
      Puts an id back on the free list; an id that was never handed out is
      ignored.  Freeing an id that is free already leaves a list that is no
      allocator's any more.
     */
    method Free(id: int) returns (wild: bool)
      requires Valid()
      modifies this, pages
      ensures wild <==> id < 0 && old(ids.n) > 0
      ensures Shape() && pages == old(pages) && head == old(head) && nthread == old(nthread)
      ensures id < 0 || id in old(ids.live) || id >= nthread ==> Valid()
      ensures ids == if 0 <= id && id in old(ids.live) then KmpidSpec.Free(old(ids), id) else old(ids)
      ensures 0 <= id < nthread && id !in old(ids.live) ==> forall s :: !Refines(slots, freehead, s)
    {
      hide Pages, Good, Linked, SlotOk, Refines, KmpidSpec.Free;
      var page, index: nat;
      page, index, wild := Find(id);
      RefinesBound(slots, freehead, ids);
      if page != null {
        if id in ids.live {
          RefinesFree(slots, freehead, ids, id);
        } else {
          ghost var slots' := slots[id := Slot(None, freehead)];
          forall s ensures !Refines(slots', id, s) {
            FreedTwice(slots, freehead, ids, id, s);
          }
        }
        Store(id, Slot(None, freehead));
        freehead := id;
        if id in ids.live {
          ids := KmpidSpec.Free(ids, id);
        }
      }
    }

    /** Makes the head array ALLOCUNIT entries longer. */
    method ReallocHead()
      requires Pages()
      modifies this`head, this`maxhead
      ensures Pages() && maxhead == old(maxhead) + ALLOCUNIT && fresh(head)
    {
      var oldHead, oldsize := head, maxhead;
      var h := new array?<Slot>[oldsize + ALLOCUNIT](_ => null);
      var i := 0;
      while i < oldsize
        invariant Pages() && head == oldHead && maxhead == oldsize && h.Length == oldsize + ALLOCUNIT
        invariant 0 <= i <= oldsize
        invariant forall k :: 0 <= k < i ==> h[k] == oldHead[k]
      {
        h[i] := oldHead[i];
        i := i + 1;
      }
      head, maxhead := h, oldsize + ALLOCUNIT;
    }

    /** Appends a page to the head, which has room for it. */
    method AddPage()
      requires Pages() && nhead < maxhead
      modifies this`nhead, this`pages, head
      ensures Pages() && nhead == old(nhead) + 1
      ensures |pages| == nhead && pages[..nhead - 1] == old(pages) && fresh(pages[nhead - 1])
    {
      var page := new Slot[ALLOCUNIT](_ => Slot(None, -1));
      head[nhead] := page;
      pages := pages + [page];
      nhead := nhead + 1;
    }

    /** Makes room for one more slot: a new page when the last one is full, a longer head when that is full. */
    method MakeRoom()
      requires Shape()
      modifies this`pages, this`nhead, this`head, this`maxhead, head
      ensures Pages() && nthread < nhead * ALLOCUNIT <= nthread + ALLOCUNIT && nhead == |pages|
      ensures head == old(head) || fresh(head)
      ensures forall p :: p in pages ==> p in old(pages) || fresh(p)
    {
      if nhead * ALLOCUNIT < nthread + 1 {
        if nhead >= maxhead {
          ReallocHead();
        }
        AddPage();
      }
    }

    /** Fills the first unused slot. */
    method Append(slot: Slot)
      requires Pages() && nthread < nhead * ALLOCUNIT <= nthread + ALLOCUNIT
      modifies this`nthread, this`slots, pages[nthread / ALLOCUNIT]
      ensures Shape() && slots == old(slots) + [slot] && nthread == old(nthread) + 1
    {
      var page := head[nthread / ALLOCUNIT];
      page[nthread % ALLOCUNIT] := slot;
      nthread := nthread + 1;
      slots := slots + [slot];
      forall x | 0 <= x < nthread ensures pages[x / ALLOCUNIT][x % ALLOCUNIT] == slots[x] {
        if x != nthread - 1 {
          assert x / ALLOCUNIT != (nthread - 1) / ALLOCUNIT || x % ALLOCUNIT != (nthread - 1) % ALLOCUNIT;
        }
      }
    }

    /** Hands out an id for a thread: the free one returned last, or else a new one. */
    method Alloc(t: Thread) returns (id: nat)
      requires Valid()
      modifies this, head, pages
      ensures Valid() && id == Next(old(ids)) && id !in old(ids.live) && ids == KmpidSpec.Alloc(old(ids), t)
      ensures head == old(head) || fresh(head)
      ensures forall p :: p in pages ==> p in old(pages) || fresh(p)
    {
      hide Pages, Good, Linked, SlotOk, KmpidSpec.Alloc;
      RefinesGood(slots, freehead, ids, t);
      if freehead >= 0 {
        RefinesPop(slots, freehead, ids, t);
        id := freehead;
        var page, index, _ := Find(id);
        var slot := page[index];
        freehead := slot.next;
        Store(id, slot.(thread := Some(t)));
      } else {
        id := nthread;
        RefinesPush(slots, freehead, ids, t, -1);
        MakeRoom();
        assert pages[nthread / ALLOCUNIT] in pages;
        Append(Slot(Some(t), -1));
      }
      ids := KmpidSpec.Alloc(ids, t);
    }
  }
}
