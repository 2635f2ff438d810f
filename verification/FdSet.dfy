/**
  The plain meaning of the fd sets of traced threads: threads form sharing
  groups, and each group has one set of file descriptors.
 */
module FdSetSpec {
  const FD_SETSIZE := 1024

  datatype View = View(group: map<nat, nat>, sets: map<nat, set<int>>, next: nat)

  datatype Op =
    | Attach(t: nat)
    | Clone(parent: nat, t: nat, share: bool)
    | AddFd(t: nat, fd: int)
    | DelFd(t: nat, fd: int)
    | Leave(t: nat)

  const EMPTY := View(map[], map[], 0)

  ghost predicate Good(v: View) {
    && (forall t :: t in v.group ==> v.group[t] in v.sets)
    && (forall g :: g in v.sets ==> g < v.next && forall x :: x in v.sets[g] ==> 0 <= x < FD_SETSIZE)
  }

  predicate InRange(fd: int) {
    0 <= fd < FD_SETSIZE
  }

  predicate Enabled(v: View, op: Op) {
    match op
    case Attach(t) => t !in v.group
    case Clone(p, t, _) => p in v.group && t !in v.group
    case AddFd(t, _) => t in v.group
    case DelFd(t, _) => t in v.group
    case Leave(t) => t in v.group
  }

  /** A thread with a set of its own. */
  function Alone(v: View, t: nat, s: set<int>): View {
    View(v.group[t := v.next], v.sets[v.next := s], v.next + 1)
  }

  /** What a thread sees. */
  function Sees(v: View, t: nat): set<int> {
    if t in v.group && v.group[t] in v.sets then v.sets[v.group[t]] else {}
  }

  /** The set of the group of t becomes s, for all its members and for nobody else. */
  function Reset(v: View, t: nat, s: set<int>): View {
    if t in v.group then v.(sets := v.sets[v.group[t] := s]) else v
  }

  function Apply(v: View, op: Op): View {
    match op
    case Attach(t) => Alone(v, t, {})
    case Clone(p, t, share) =>
      if share && p in v.group then v.(group := v.group[t := v.group[p]]) else Alone(v, t, Sees(v, p))
    case AddFd(t, fd) => if InRange(fd) then Reset(v, t, Sees(v, t) + {fd}) else v
    case DelFd(t, fd) => if InRange(fd) then Reset(v, t, Sees(v, t) - {fd}) else v
    case Leave(t) => v.(group := v.group - {t})
  }

  lemma ApplyGood(v: View, op: Op)
    requires Good(v) && Enabled(v, op)
    ensures Good(Apply(v, op))
  {}

  ghost predicate Run(v: View, ops: seq<Op>, v': View)
    decreases |ops|
  {
    if ops == [] then v' == v else Enabled(v, ops[0]) && Run(Apply(v, ops[0]), ops[1..], v')
  }

  /** The thread whose set an operation changes, if any. */
  predicate Touches(v: View, op: Op, g: nat) {
    (op.AddFd? || op.DelFd?) && op.t in v.group && v.group[op.t] == g
  }

  /** None of the operations of a run acts on group g. */
  ghost predicate Spares(v: View, ops: seq<Op>, g: nat)
    decreases |ops|
  {
    ops == [] || (!Touches(v, ops[0], g) && Spares(Apply(v, ops[0]), ops[1..], g))
  }

  /**
    A group changes only through its own members: over any run in which no
    member adds or removes a descriptor, a thread that stays sees what it saw.
   */
  lemma {:induction false} GroupIsolated(v: View, ops: seq<Op>, v': View, t: nat)
    requires Good(v) && Run(v, ops, v') && t in v.group && Spares(v, ops, v.group[t])
    requires forall i :: 0 <= i < |ops| ==> ops[i] != Leave(t)
    ensures Good(v') && t in v'.group && v'.group[t] == v.group[t] && Sees(v', t) == Sees(v, t)
    decreases |ops|
  {
    if ops != [] {
      var v1 := Apply(v, ops[0]);
      assert ops[0] != Leave(t);
      ApplyGood(v, ops[0]);
      assert v1.group[t] == v.group[t] && v1.sets[v.group[t]] == v.sets[v.group[t]];
      GroupIsolated(v1, ops[1..], v', t);
    }
  }

  /** A root thread starts in a group of its own that sees nothing; nobody else notices. */
  lemma AttachSees(v: View, t: nat, u: nat)
    requires Good(v) && Enabled(v, Attach(t))
    ensures var v' := Apply(v, Attach(t));
      && Good(v') && t in v'.group && Sees(v', t) == {}
      && (u in v.group ==> u in v'.group && Sees(v', u) == Sees(v, u) && v'.group[u] == v.group[u] != v'.group[t])
  {}

  /** A clone starts by seeing what its parent sees, in the group of the parent exactly when files are shared. */
  lemma CloneSees(v: View, p: nat, t: nat, share: bool, u: nat)
    requires Good(v) && Enabled(v, Clone(p, t, share))
    ensures var v' := Apply(v, Clone(p, t, share));
      && Good(v') && t in v'.group && Sees(v', t) == Sees(v, p)
      && (u in v.group ==>
            && u in v'.group && Sees(v', u) == Sees(v, u) && v'.group[u] == v.group[u]
            && (v'.group[u] == v'.group[t] <==> share && v.group[u] == v.group[p]))
  {}

  lemma {:induction false} GroupKept(v: View, ops: seq<Op>, v': View, t: nat)
    requires Good(v) && Run(v, ops, v') && t in v.group
    requires forall i :: 0 <= i < |ops| ==> ops[i] != Leave(t)
    ensures Good(v') && t in v'.group && v'.group[t] == v.group[t]
    decreases |ops|
  {
    if ops != [] {
      assert ops[0] != Leave(t);
      ApplyGood(v, ops[0]);
      GroupKept(Apply(v, ops[0]), ops[1..], v', t);
    }
  }

  /**
    A clone that shares files sees what its parent sees for as long as both
    live; one that does not starts from a snapshot, and from then on neither
    sees what the other adds or removes.
   */
  lemma SharedOrSnapshot(v: View, p: nat, t: nat, share: bool, ops: seq<Op>, v': View)
    requires Good(v) && Enabled(v, Clone(p, t, share)) && Run(Apply(v, Clone(p, t, share)), ops, v')
    requires forall i :: 0 <= i < |ops| ==> ops[i] != Leave(t) && ops[i] != Leave(p)
    ensures share ==> Sees(v', t) == Sees(v', p)
    ensures var v1 := Apply(v, Clone(p, t, share));
      !share ==>
        && v1.group[t] != v1.group[p]
        && (Spares(v1, ops, v1.group[t]) ==> Sees(v', t) == Sees(v, p))
        && (Spares(v1, ops, v1.group[p]) ==> Sees(v', p) == Sees(v, p))
  {
    hide Run, Spares;
    var v1 := Apply(v, Clone(p, t, share));
    CloneSees(v, p, t, share, p);
    GroupKept(v1, ops, v', t);
    GroupKept(v1, ops, v', p);
    if !share {
      if Spares(v1, ops, v1.group[t]) { GroupIsolated(v1, ops, v', t); }
      if Spares(v1, ops, v1.group[p]) { GroupIsolated(v1, ops, v', p); }
    }
  }

  /** Whether the last operation on group g that concerns a descriptor was an addition; was if there is none. */
  ghost predicate LastWord(v: View, ops: seq<Op>, g: nat, fd: int, was: bool)
    decreases |ops|
  {
    if ops == [] then was
    else
      var said := if Touches(v, ops[0], g) && ops[0].fd == fd && InRange(fd) then ops[0].AddFd? else was;
      LastWord(Apply(v, ops[0]), ops[1..], g, fd, said)
  }

  /** Over any run a thread sees a descriptor exactly when its group added it last, or had it and left it alone. */
  lemma {:induction false} SeesLastWord(v: View, ops: seq<Op>, v': View, t: nat, fd: int)
    requires Good(v) && Run(v, ops, v') && t in v.group
    requires forall i :: 0 <= i < |ops| ==> ops[i] != Leave(t)
    ensures fd in Sees(v', t) <==> LastWord(v, ops, v.group[t], fd, fd in Sees(v, t))
    decreases |ops|
  {
    if ops != [] {
      assert ops[0] != Leave(t);
      ApplyGood(v, ops[0]);
      SeesLastWord(Apply(v, ops[0]), ops[1..], v', t, fd);
    }
  }
}

/** Who points where: the reference counts that a map of pointers should have. */
module Owners {
  ghost function Of<K, V>(m: map<K, V>, v: V): (r: set<K>) {
    set k | k in m && m[k] == v
  }

  lemma Added<K, V>(m: map<K, V>, k: K, v: V, w: V)
    requires k !in m
    ensures |Of(m[k := v], w)| == |Of(m, w)| + if v == w then 1 else 0
  {
    if v == w {
      assert Of(m[k := v], w) == Of(m, w) + {k};
    } else {
      assert Of(m[k := v], w) == Of(m, w);
    }
  }

  lemma Removed<K, V>(m: map<K, V>, k: K, w: V)
    requires k in m
    ensures |Of(m - {k}, w)| == |Of(m, w)| - if m[k] == w then 1 else 0
  {
    if m[k] == w {
      assert Of(m, w) == Of(m - {k}, w) + {k};
    } else {
      assert Of(m, w) == Of(m - {k}, w);
    }
  }

  lemma Moved<K, V>(m: map<K, V>, k: K, v: V, w: V)
    requires k in m && m[k] != v
    ensures |Of(m[k := v], w)| == |Of(m, w)| + (if v == w then 1 else 0) - (if m[k] == w then 1 else 0)
  {
    Removed(m, k, w);
    Added(m - {k}, k, v, w);
    assert (m - {k})[k := v] == m[k := v];
  }

  /** A pointer counted once has one owner. */
  lemma Single<K, V>(m: map<K, V>, k: K, j: K)
    requires k in m && j in m && m[j] == m[k] && |Of(m, m[k])| == 1
    ensures j == k
  {
    var o := Of(m, m[k]);
    assert |o - {k}| == 0;
    assert j in o;
  }

  lemma Some<K, V>(m: map<K, V>, k: K)
    requires k in m
    ensures |Of(m, m[k])| > 0
  {
    assert k in Of(m, m[k]);
  }

  lemma Nobody<K, V>(m: map<K, V>, v: V)
    requires forall k :: k in m ==> m[k] != v
    ensures |Of(m, v)| == 0
  {
    assert Of(m, v) == {};
  }
}

/**
  The fd sets of the kmview module: a structure per sharing group that counts
  its threads, over reference-counted bit sets that are copied when written.
 */
module FdSet {
  import opened FdSetSpec
  import opened Wrappers
  import Owners

  const EINVAL := 22

  /** What a bit set structure holds: its number of owners, its number of descriptors and the descriptors. */
  datatype Block = Block(ncopy: int, nfd: int, fds: set<int>)

  class FdSysSet {
    var data: Block

    constructor (data: Block)
      ensures this.data == data
    {
      this.data := data;
    }
  }

  class FdSet {
    var nusers: int
    var fdsysset: FdSysSet?

    constructor (fdsysset: FdSysSet?)
      ensures this.nusers == 1 && this.fdsysset == fdsysset
    {
      this.nusers, this.fdsysset := 1, fdsysset;
    }
  }

  type Threads = map<nat, FdSet>
  type Users = map<FdSet, int>
  type Pointers = map<FdSet, FdSysSet?>
  type Blocks = map<FdSysSet, Block>

  predicate BlockOk(b: Block) {
    b.nfd == |b.fds| > 0
  }

  /** The bit sets that are not freed are those somebody owns, each with its number of owners and of descriptors. */
  ghost predicate BlocksOk(ptr: Pointers, blk: Blocks) {
    && (forall f :: f in ptr && ptr[f] != null ==> ptr[f] in blk)
    && (forall b :: b in blk ==> BlockOk(blk[b]) && blk[b].ncopy == |Owners.Of(ptr, b)| > 0)
  }

  /** The group structures that are not freed are those of some thread, each with its number of threads. */
  ghost predicate SetsOk(threads: Threads, users: Users) {
    && (forall t :: t in threads ==> threads[t] in users)
    && (forall f :: f in users ==> users[f] == |Owners.Of(threads, f)| > 0)
  }

  ghost function Contents(blk: Blocks, b: FdSysSet?): set<int> {
    if b == null || b !in blk then {} else blk[b].fds
  }

  ghost predicate SeesOk(threads: Threads, ptr: Pointers, blk: Blocks, view: View, t: nat) {
    && t in threads && t in view.group && threads[t] in ptr
    && Contents(blk, ptr[threads[t]]) == Sees(view, t)
  }

  /** Threads share a structure exactly when they are in one group, and the structure holds the set of the group. */
  ghost predicate ViewOk(threads: Threads, ptr: Pointers, blk: Blocks, view: View) {
    && Good(view) && view.group.Keys == threads.Keys
    && (forall t, u :: t in threads && u in threads ==> (threads[t] == threads[u] <==> view.group[t] == view.group[u]))
    && (forall t :: t in threads ==> SeesOk(threads, ptr, blk, view, t))
  }

  ghost predicate Ok(threads: Threads, users: Users, ptr: Pointers, blk: Blocks, view: View) {
    && users.Keys == ptr.Keys
    && BlocksOk(ptr, blk) && SetsOk(threads, users) && ViewOk(threads, ptr, blk, view)
  }

  /** The bit sets after one owner of b has left it. */
  function Left(blk: Blocks, b: FdSysSet?): Blocks
    requires b != null ==> b in blk
  {
    if b == null then blk
    else if blk[b].ncopy > 1 then blk[b := blk[b].(ncopy := blk[b].ncopy - 1)]
    else blk - {b}
  }

  /** One owner of b replaces it by r, which holds s: in place only when nobody else can see it. */
  ghost predicate Replaced(blk: Blocks, b: FdSysSet?, blk': Blocks, r: FdSysSet?, s: set<int>) {
    && (b != null ==> b in blk) && (r == null <==> s == {})
    && if r == b then
         (b == null && blk' == blk) ||
         (b != null && blk' == blk[b := Block(blk[b].ncopy, |s|, s)] && (blk[b].ncopy == 1 || s == blk[b].fds))
       else
         (r == null && blk' == Left(blk, b)) ||
         (r != null && r !in blk && blk' == Left(blk, b)[r := Block(1, |s|, s)])
  }

  lemma ReplacedBlocks(ptr: Pointers, blk: Blocks, f: FdSet, blk': Blocks, r: FdSysSet?, s: set<int>)
    requires BlocksOk(ptr, blk) && f in ptr && Replaced(blk, ptr[f], blk', r, s)
    ensures BlocksOk(ptr[f := r], blk')
  {
    var b := ptr[f];
    var ptr' := ptr[f := r];
    if r == b {
      assert ptr' == ptr;
    } else {
      forall w | w in blk' ensures BlockOk(blk'[w]) && blk'[w].ncopy == |Owners.Of(ptr', w)| > 0 {
        Owners.Moved(ptr, f, r, w);
        if w == r { Owners.Nobody(ptr, r); }
      }
      forall g | g in ptr' && ptr'[g] != null ensures ptr'[g] in blk' {
        if g != f && ptr[g] == b && blk[b].ncopy == 1 { Owners.Single(ptr, f, g); }
      }
    }
  }

  /** Nobody but the owner sees the replacement. */
  lemma ReplacedElsewhere(ptr: Pointers, blk: Blocks, f: FdSet, g: FdSet, blk': Blocks, r: FdSysSet?, s: set<int>)
    requires BlocksOk(ptr, blk) && f in ptr && g in ptr && g != f && Replaced(blk, ptr[f], blk', r, s)
    ensures Contents(blk', ptr[g]) == Contents(blk, ptr[g])
  {
    var b := ptr[f];
    if b != null && ptr[g] == b && blk[b].ncopy == 1 { Owners.Single(ptr, f, g); }
  }

  lemma ReplacedHere(blk: Blocks, b: FdSysSet?, blk': Blocks, r: FdSysSet?, s: set<int>)
    requires Replaced(blk, b, blk', r, s)
    ensures Contents(blk', r) == s
  {}

  lemma ResetSees(v: View, t: nat, s: set<int>, u: nat)
    requires Good(v) && t in v.group && u in v.group
    ensures Sees(Reset(v, t, s), u) == if v.group[u] == v.group[t] then s else Sees(v, u)
  {}

  lemma ReplacedOk(threads: Threads, users: Users, ptr: Pointers, blk: Blocks, view: View,
                   t: nat, blk': Blocks, r: FdSysSet?, s: set<int>)
    requires Ok(threads, users, ptr, blk, view) && t in threads && threads[t] in ptr
    requires Replaced(blk, ptr[threads[t]], blk', r, s) && Good(Reset(view, t, s))
    ensures Ok(threads, users, ptr[threads[t] := r], blk', Reset(view, t, s))
  {
    hide BlocksOk, Replaced, Contents, Good, SetsOk, Sees;
    var f := threads[t];
    ReplacedBlocks(ptr, blk, f, blk', r, s);
    ReplacedHere(blk, ptr[f], blk', r, s);
    forall u | u in threads ensures SeesOk(threads, ptr[f := r], blk', Reset(view, t, s), u) {
      assert SeesOk(threads, ptr, blk, view, u);
      ResetSees(view, t, s, u);
      if threads[u] != f { ReplacedElsewhere(ptr, blk, f, threads[u], blk', r, s); }
    }
  }

  /** The bit sets after b got one more owner. */
  function Joined(blk: Blocks, b: FdSysSet?): Blocks
    requires b != null ==> b in blk
  {
    if b == null then blk else blk[b := blk[b].(ncopy := blk[b].ncopy + 1)]
  }

  lemma JoinedBlocks(ptr: Pointers, blk: Blocks, f: FdSet, b: FdSysSet?)
    requires BlocksOk(ptr, blk) && f !in ptr && (b != null ==> b in blk)
    ensures BlocksOk(ptr[f := b], Joined(blk, b))
  {
    forall w | w in blk ensures |Owners.Of(ptr[f := b], w)| == |Owners.Of(ptr, w)| + if w == b then 1 else 0 {
      Owners.Added(ptr, f, b, w);
    }
  }

  lemma JoinedContents(blk: Blocks, b: FdSysSet?, c: FdSysSet?)
    requires b != null ==> b in blk
    ensures Contents(Joined(blk, b), c) == Contents(blk, c)
  {}

  lemma UsersOwn(threads: Threads, users: Users)
    requires SetsOk(threads, users)
    ensures forall t :: t in threads ==> threads[t] in users
  {}

  lemma NewUser(threads: Threads, users: Users, t: nat, f: FdSet)
    requires SetsOk(threads, users) && t !in threads
    ensures SetsOk(threads[t := f], users[f := if f in users then users[f] + 1 else 1])
  {
    if f !in users { Owners.Nobody(threads, f); }
    forall g | g in users || g == f
      ensures |Owners.Of(threads[t := f], g)| == |Owners.Of(threads, g)| + if g == f then 1 else 0
    {
      Owners.Added(threads, t, f, g);
    }
  }

  /** A thread with a new group structure, over a bit set it shares with nobody or with one that was there. */
  lemma AloneOk(threads: Threads, users: Users, ptr: Pointers, blk: Blocks, view: View, t: nat, f: FdSet, b: FdSysSet?)
    requires Ok(threads, users, ptr, blk, view) && t !in threads && f !in users && (b != null ==> b in blk)
    requires Good(Alone(view, t, Contents(blk, b)))
    ensures Ok(threads[t := f], users[f := 1], ptr[f := b], Joined(blk, b), Alone(view, t, Contents(blk, b)))
  {
    hide BlocksOk, SetsOk, Good, Contents, Joined;
    JoinedBlocks(ptr, blk, f, b);
    NewUser(threads, users, t, f);
    var threads', view' := threads[t := f], Alone(view, t, Contents(blk, b));
    GroupsBelow(view);
    UsersOwn(threads, users);
    forall u | u in threads' ensures SeesOk(threads', ptr[f := b], Joined(blk, b), view', u) {
      if u == t {
        JoinedContents(blk, b, b);
      } else {
        assert SeesOk(threads, ptr, blk, view, u);
        JoinedContents(blk, b, ptr[threads[u]]);
      }
    }
  }

  lemma GroupsBelow(v: View)
    requires Good(v)
    ensures forall t :: t in v.group ==> v.group[t] in v.sets && v.group[t] < v.next
  {}

  lemma ShareOk(threads: Threads, users: Users, ptr: Pointers, blk: Blocks, view: View, p: nat, t: nat)
    requires Ok(threads, users, ptr, blk, view) && t !in threads && p in threads && threads[p] in users
    ensures p in view.group
    ensures Ok(threads[t := threads[p]], users[threads[p] := users[threads[p]] + 1], ptr, blk,
               view.(group := view.group[t := view.group[p]]))
  {
    hide BlocksOk, SetsOk;
    NewUser(threads, users, t, threads[p]);
    var view' := view.(group := view.group[t := view.group[p]]);
    var threads' := threads[t := threads[p]];
    forall u | u in threads' ensures SeesOk(threads', ptr, blk, view', u) {
      assert SeesOk(threads, ptr, blk, view, if u == t then p else u);
    }
  }

  lemma LeftBlocks(ptr: Pointers, blk: Blocks, f: FdSet)
    requires BlocksOk(ptr, blk) && f in ptr
    ensures BlocksOk(ptr - {f}, Left(blk, ptr[f]))
  {
    var b := ptr[f];
    forall w | w in blk ensures |Owners.Of(ptr - {f}, w)| == |Owners.Of(ptr, w)| - if w == b then 1 else 0 {
      Owners.Removed(ptr, f, w);
    }
    forall g | g in ptr - {f} && ptr[g] != null ensures ptr[g] in Left(blk, b) {
      if ptr[g] == b && blk[b].ncopy == 1 { Owners.Single(ptr, f, g); }
    }
  }

  lemma LeftElsewhere(ptr: Pointers, blk: Blocks, f: FdSet, g: FdSet)
    requires BlocksOk(ptr, blk) && f in ptr && g in ptr && g != f
    ensures Contents(Left(blk, ptr[f]), ptr[g]) == Contents(blk, ptr[g])
  {
    var b := ptr[f];
    if b != null && ptr[g] == b && blk[b].ncopy == 1 { Owners.Single(ptr, f, g); }
  }

  /** A thread leaves: its structure counts one less, or is freed with its hold on the bit set. */
  lemma LeaveOk(threads: Threads, users: Users, ptr: Pointers, blk: Blocks, view: View, t: nat)
    requires Ok(threads, users, ptr, blk, view) && t in threads && threads[t] in users
    ensures threads[t] in ptr && (ptr[threads[t]] != null ==> ptr[threads[t]] in blk)
    ensures
      var f := threads[t];
      var view' := view.(group := view.group - {t});
      if users[f] > 1 then Ok(threads - {t}, users[f := users[f] - 1], ptr, blk, view')
      else Ok(threads - {t}, users - {f}, ptr - {f}, Left(blk, ptr[f]), view')
  {
    var f := threads[t];
    assert BlocksOk(ptr, blk);
    UserLeaves(threads, users, t);
    LeaveSees(threads, users, ptr, blk, view, t);
    if users[f] <= 1 {
      LeftBlocks(ptr, blk, f);
    }
  }

  lemma UserLeaves(threads: Threads, users: Users, t: nat)
    requires SetsOk(threads, users) && t in threads
    ensures
      var f := threads[t];
      if users[f] > 1 then SetsOk(threads - {t}, users[f := users[f] - 1]) else SetsOk(threads - {t}, users - {f})
  {
    var f := threads[t];
    forall g | g in users ensures |Owners.Of(threads - {t}, g)| == |Owners.Of(threads, g)| - if g == f then 1 else 0 {
      Owners.Removed(threads, t, g);
    }
    forall u | u in threads - {t} && users[f] <= 1 ensures threads[u] != f {
      if threads[u] == f { Owners.Single(threads, t, u); }
    }
  }

  lemma LeaveSees(threads: Threads, users: Users, ptr: Pointers, blk: Blocks, view: View, t: nat)
    requires Ok(threads, users, ptr, blk, view) && t in threads && threads[t] in users
    ensures
      var f := threads[t];
      var view' := view.(group := view.group - {t});
      if users[f] > 1 then ViewOk(threads - {t}, ptr, blk, view')
      else (ptr[f] != null ==> ptr[f] in blk) && ViewOk(threads - {t}, ptr - {f}, Left(blk, ptr[f]), view')
  {
    hide Contents, BlocksOk, SetsOk, Left;
    var f := threads[t];
    OwnerHolds(ptr, blk, f);
    var view' := view.(group := view.group - {t});
    forall u | u in threads - {t}
      ensures if users[f] > 1 then SeesOk(threads - {t}, ptr, blk, view', u)
              else SeesOk(threads - {t}, ptr - {f}, Left(blk, ptr[f]), view', u)
    {
      assert SeesOk(threads, ptr, blk, view, u);
      if users[f] <= 1 {
        LastUser(threads, users, t, u);
        LeftElsewhere(ptr, blk, f, threads[u]);
      }
    }
  }

  lemma OwnerHolds(ptr: Pointers, blk: Blocks, f: FdSet)
    requires BlocksOk(ptr, blk) && f in ptr
    ensures ptr[f] != null ==> ptr[f] in blk
  {}

  lemma LastUser(threads: Threads, users: Users, t: nat, u: nat)
    requires SetsOk(threads, users) && t in threads && u in threads && u != t
    requires threads[t] in users && users[threads[t]] <= 1
    ensures threads[u] != threads[t]
  {
    if threads[u] == threads[t] { Owners.Single(threads, t, u); }
  }

  class Kernel {
    var threads: Threads
    ghost var sets: set<FdSet>          // group structures allocated and not freed
    ghost var blocks: set<FdSysSet>     // bit sets allocated and not freed
    ghost var view: View

    ghost function Users(): (m: Users)
      reads this`sets, sets
      ensures m.Keys == sets
    {
      map f | f in sets :: f.nusers
    }

    ghost function Ptr(): (m: Pointers)
      reads this`sets, sets
      ensures m.Keys == sets
    {
      map f | f in sets :: f.fdsysset
    }

    ghost function Blk(): (m: Blocks)
      reads this`blocks, blocks
      ensures m.Keys == blocks
    {
      map b | b in blocks :: b.data
    }

    ghost predicate Valid()
      reads this, sets, blocks
      ensures Valid() ==> Good(view) && view.group.Keys == threads.Keys
    {
      Ok(threads, Users(), Ptr(), Blk(), view)
    }

    constructor ()
      ensures Valid() && view == EMPTY
    {
      threads, sets, blocks, view := map[], {}, {}, EMPTY;
    }

    /** One more owner of a bit set, which may be missing. */
    method FdsyssetCopy(fds: FdSysSet?) returns (r: FdSysSet?)
      requires fds != null ==> fds in blocks
      modifies fds
      ensures r == fds && Blk() == Joined(old(Blk()), fds)
      ensures Ptr() == old(Ptr()) && Users() == old(Users())
    {
      if fds == null {
        return null;
      }
      fds.data := fds.data.(ncopy := fds.data.ncopy + 1);
      return fds;
    }

    /** Allocates a bit set. */
    method NewBlock(data: Block) returns (r: FdSysSet)
      modifies this`blocks
      ensures fresh(r) && r !in old(blocks) && Blk() == old(Blk())[r := data] && blocks == old(blocks) + {r}
      ensures Ptr() == old(Ptr()) && Users() == old(Users())
      ensures r.data == data
    {
      r := new FdSysSet(data);
      blocks := blocks + {r};
    }

    method Put(fds: FdSysSet, data: Block)
      requires fds in blocks
      modifies fds
      ensures Blk() == old(Blk())[fds := data] && fds.data == data
      ensures Ptr() == old(Ptr()) && Users() == old(Users())
    {
      fds.data := data;
    }

    method Kfree(fds: FdSysSet)
      requires fds in blocks
      modifies this`blocks
      ensures Blk() == old(Blk()) - {fds} && blocks == old(blocks) - {fds}
      ensures Ptr() == old(Ptr()) && Users() == old(Users())
    {
      blocks := blocks - {fds};
    }

    /** Adds a descriptor for one owner of a bit set; the other owners keep what they had. */
    method FdsyssetSet(fd: nat, fds: FdSysSet?) returns (r: FdSysSet?)
      requires fds != null ==> fds in blocks && BlockOk(Blk()[fds]) && Blk()[fds].ncopy > 0
      modifies this`blocks, fds
      ensures fd >= FD_SETSIZE ==> r == fds && Blk() == old(Blk())
      ensures fd < FD_SETSIZE ==> Replaced(old(Blk()), fds, Blk(), r, old(Contents(Blk(), fds)) + {fd})
      ensures fresh(blocks - old(blocks)) && Ptr() == old(Ptr()) && Users() == old(Users())
    {
      hide Ptr, Users;
      if fd >= FD_SETSIZE {
        return fds;
      }
      ghost var blk := Blk();
      if fds == null {
        r := NewBlock(Block(1, 1, {fd}));
      } else if fd !in fds.data.fds {
        var data := fds.data;
        if fds.data.ncopy > 1 {
          r := NewBlock(Block(1, data.nfd, data.fds));
          Put(fds, data.(ncopy := data.ncopy - 1));
        } else {
          r := fds;
        }
        Put(r, Block(r.data.ncopy, r.data.nfd + 1, r.data.fds + {fd}));
      } else {
        r := fds;
        assert fds.data.fds + {fd} == fds.data.fds;
      }
    }

    /** Removes a descriptor for one owner; a set that becomes empty is dropped, and freed by its last owner. */
    method FdsyssetClr(fd: nat, fds: FdSysSet?) returns (r: FdSysSet?)
      requires fds != null ==> fds in blocks && BlockOk(Blk()[fds]) && Blk()[fds].ncopy > 0
      modifies this`blocks, fds
      ensures fd >= FD_SETSIZE ==> r == fds && Blk() == old(Blk())
      ensures fd < FD_SETSIZE ==> Replaced(old(Blk()), fds, Blk(), r, old(Contents(Blk(), fds)) - {fd})
      ensures fresh(blocks - old(blocks)) && Ptr() == old(Ptr()) && Users() == old(Users())
    {
      hide Ptr, Users;
      if fd >= FD_SETSIZE {
        return fds;
      }
      if fds != null && fd in fds.data.fds {
        var data := fds.data;
        LastOne(data.fds, fd);
        if data.ncopy > 1 {
          Put(fds, data.(ncopy := data.ncopy - 1));
          if data.nfd == 1 {
            r := null;
          } else {
            r := NewBlock(Block(1, data.nfd, data.fds));
          }
        } else if data.nfd == 1 {
          r := null;
          Kfree(fds);
        } else {
          r := fds;
        }
        if r != null {
          Put(r, Block(r.data.ncopy, r.data.nfd - 1, r.data.fds - {fd}));
        }
      } else {
        r := fds;
        assert fds != null ==> fds.data.fds - {fd} == fds.data.fds && fds.data.fds != {};
      }
    }

    /** One owner less; the last one frees the bit set. */
    method FdsyssetFree(fds: FdSysSet?)
      requires fds != null ==> fds in blocks
      modifies this`blocks, fds
      ensures Blk() == Left(old(Blk()), fds) && blocks <= old(blocks)
      ensures Ptr() == old(Ptr()) && Users() == old(Users())
    {
      if fds != null {
        if fds.data.ncopy > 1 {
          Put(fds, fds.data.(ncopy := fds.data.ncopy - 1));
        } else {
          Kfree(fds);
        }
      }
    }

    lemma Pointed(f: FdSet)
      requires f in sets
      ensures Ptr()[f] == f.fdsysset
    {}

    /** Lets the group of a thread own r instead of what it owned, when the bit sets are already as after that. */
    method Point(t: nat, r: FdSysSet?, ghost blk: Blocks, ghost s: set<int>)
      requires t in threads && threads[t] in sets && Ok(threads, Users(), Ptr(), blk, view)
      requires Replaced(blk, Ptr()[threads[t]], Blk(), r, s)
      requires Good(Reset(view, t, s))
      modifies this`view, threads[t]
      ensures Valid() && view == Reset(old(view), t, s)
    {
      hide Ok, Replaced, Good;
      ReplacedOk(threads, Users(), Ptr(), blk, view, t, Blk(), r, s);
      threads[t].fdsysset := r;
      view := Reset(view, t, s);
      assert Ptr() == old(Ptr())[threads[t] := r];
      assert Users() == old(Users());
    }

    /** The descriptor joins the set that the whole group of the thread sees. */
    method AddFd(t: nat, fd: int) returns (ret: int)
      requires Valid() && t in threads
      modifies this, sets, blocks
      ensures Valid() && view == Apply(old(view), Op.AddFd(t, fd))
      ensures ret == if InRange(fd) then 0 else -EINVAL
      ensures threads == old(threads) && sets == old(sets) && fresh(blocks - old(blocks))
    {
      hide Ok, Replaced, Contents, Ptr, Users, Blk, Apply, Good, Sees;
      if fd < 0 || fd >= FD_SETSIZE {
        ApplyNothing(view, t, fd);
        return -EINVAL;
      }
      var f := threads[t];
      ghost var blk := Blk();
      ThreadFacts(threads, Users(), Ptr(), blk, view, t);
      Pointed(f);
      ApplySets(view, t, fd);
      var r := FdsyssetSet(fd, f.fdsysset);
      Point(t, r, blk, Sees(view, t) + {fd});
      return 0;
    }

    method DelFd(t: nat, fd: int) returns (ret: int)
      requires Valid() && t in threads
      modifies this, sets, blocks
      ensures Valid() && view == Apply(old(view), Op.DelFd(t, fd))
      ensures ret == if InRange(fd) then 0 else -EINVAL
      ensures threads == old(threads) && sets == old(sets) && fresh(blocks - old(blocks))
    {
      hide Ok, Replaced, Contents, Ptr, Users, Blk, Apply, Good, Sees;
      if fd < 0 || fd >= FD_SETSIZE {
        ApplyNothing(view, t, fd);
        return -EINVAL;
      }
      var f := threads[t];
      ghost var blk := Blk();
      ThreadFacts(threads, Users(), Ptr(), blk, view, t);
      Pointed(f);
      ApplySets(view, t, fd);
      var r := FdsyssetClr(fd, f.fdsysset);
      Point(t, r, blk, Sees(view, t) - {fd});
      return 0;
    }

    /** The threads after a step, when the structures are already as after it. */
    method Commit(ts: Threads, ghost v: View)
      requires Ok(ts, Users(), Ptr(), Blk(), v)
      modifies this`threads, this`view
      ensures Valid() && threads == ts && view == v
    {
      hide Ok, Ptr, Users, Blk;
      threads, view := ts, v;
    }

    /**
      The fd set of a new thread: that of its parent when files are shared, and
      else a structure of its own over the bit set the parent sees now.
     */
    method NewThread(t: nat, parent: Option<nat>, share: bool)
      requires Valid() && t !in threads && (parent.Some? ==> parent.value in threads) && (share ==> parent.Some?)
      modifies this, sets, blocks
      ensures Valid()
      ensures view == Apply(old(view), if parent.Some? then Op.Clone(parent.value, t, share) else Op.Attach(t))
      ensures fresh(sets - old(sets)) && blocks == old(blocks)
    {
      hide Valid;
      if share {
        ShareSet(t, parent.value);
      } else {
        OwnSet(t, parent);
      }
    }

    method ShareSet(t: nat, p: nat)
      requires Valid() && t !in threads && p in threads
      modifies this, sets
      ensures Valid() && view == Apply(old(view), Op.Clone(p, t, true)) && sets == old(sets) && blocks == old(blocks)
    {
      hide Ok, Contents, Ptr, Users, Blk, Good, Sees;
      ghost var users, ptr, blk := Users(), Ptr(), Blk();
      ThreadFacts(threads, users, ptr, blk, view, p);
      ShareOk(threads, users, ptr, blk, view, p, t);
      AddUser(threads[p], 1);
      Commit(threads[t := threads[p]], Apply(view, Op.Clone(p, t, true)));
    }

    method OwnSet(t: nat, parent: Option<nat>)
      requires Valid() && t !in threads && (parent.Some? ==> parent.value in threads)
      modifies this, blocks
      ensures Valid()
      ensures view == Apply(old(view), if parent.Some? then Op.Clone(parent.value, t, false) else Op.Attach(t))
      ensures fresh(sets - old(sets)) && blocks == old(blocks)
    {
      hide Ok, Contents, Ptr, Users, Blk, Good, Sees;
      ghost var users, ptr, blk := Users(), Ptr(), Blk();
      var b: FdSysSet? := null;
      EmptyContents(blk);
      AloneGood(view, t, parent);
      if parent.Some? {
        ThreadFacts(threads, users, ptr, blk, view, parent.value);
        Pointed(threads[parent.value]);
        b := FdsyssetCopy(threads[parent.value].fdsysset);
      }
      var f := NewSet(b);
      AloneOk(threads, users, ptr, blk, view, t, f, b);
      Commit(threads[t := f], Alone(view, t, Contents(blk, b)));
    }

    method NewSet(b: FdSysSet?) returns (f: FdSet)
      modifies this`sets
      ensures fresh(f) && f !in old(sets) && sets == old(sets) + {f}
      ensures Ptr() == old(Ptr())[f := b] && Users() == old(Users())[f := 1] && Blk() == old(Blk())
    {
      f := new FdSet(b);
      sets := sets + {f};
    }

    method AddUser(f: FdSet, delta: int)
      requires f in sets
      modifies f
      ensures Ptr() == old(Ptr()) && Users() == old(Users())[f := old(Users())[f] + delta] && Blk() == old(Blk())
    {
      f.nusers := f.nusers + delta;
    }

    /** A thread goes: the last one of its group frees the structure, and the bit set if nobody else owns it. */
    method ThreadFree(t: nat)
      requires Valid() && t in threads
      modifies this, sets, blocks
      ensures Valid() && view == Apply(old(view), Op.Leave(t))
      ensures sets <= old(sets) && blocks <= old(blocks)
    {
      hide Ok, Contents, Ptr, Users, Blk, Good, Sees, Left, Apply, BlockOk;
      ghost var users, ptr, blk := Users(), Ptr(), Blk();
      ThreadFacts(threads, users, ptr, blk, view, t);
      LeaveOk(threads, users, ptr, blk, view, t);
      var f := threads[t];
      Pointed(f);
      Counted(f);
      if f.nusers == 1 {
        FdsyssetFree(f.fdsysset);
        FreeSet(f);
      } else {
        AddUser(f, -1);
      }
      ApplyLeave(view, t);
      Commit(threads - {t}, Apply(view, Op.Leave(t)));
    }

    lemma Counted(f: FdSet)
      requires f in sets
      ensures Users()[f] == f.nusers
    {}

    method FreeSet(f: FdSet)
      requires f in sets
      modifies this`sets
      ensures sets == old(sets) - {f}
      ensures Ptr() == old(Ptr()) - {f} && Users() == old(Users()) - {f} && Blk() == old(Blk())
    {
      sets := sets - {f};
    }

    /** Whether a call on a descriptor of the thread is the business of the tracer. */
    method IsInFdSet(fd: int, t: nat) returns (r: bool)
      requires Valid() && t in threads
      ensures Good(view) && t in view.group && (r <==> fd in Sees(view, t))
    {
      ThreadFacts(threads, Users(), Ptr(), Blk(), view, t);
      var fdsysset := threads[t].fdsysset;
      if fd < 0 || fd >= FD_SETSIZE || fdsysset == null {
        return false;
      }
      return fd in fdsysset.data.fds;
    }

    /** Whether select and poll can be let through: the thread has no virtual descriptor. */
    method HasNoFd(t: nat) returns (r: bool)
      requires Valid() && t in threads
      ensures Good(view) && t in view.group && (r <==> Sees(view, t) == {})
    {
      ThreadFacts(threads, Users(), Ptr(), Blk(), view, t);
      r := threads[t].fdsysset == null;
    }

    /**
      Whether the tracer wants a call: always when its first argument is no
      descriptor or an exception of the tracer applies, and else exactly when
      the descriptor is in the set of the thread.
     */
    method IsKmviewFd(sysno: nat, fd: int, t: nat, fdCalls: set<nat>, close: nat, fchdir: nat,
                      exceptClose: bool, exceptFchdir: bool) returns (r: bool)
      requires Valid() && t in threads
      ensures Good(view) && t in view.group
      ensures sysno !in fdCalls ==> r
      ensures sysno in fdCalls && !(exceptClose && sysno == close) && !(exceptFchdir && sysno == fchdir) ==>
                (r <==> fd in Sees(view, t))
      ensures sysno in fdCalls && ((exceptClose && sysno == close) || (exceptFchdir && sysno == fchdir)) ==> r
    {
      var found := IsInFdSet(fd, t);
      if sysno !in fdCalls {
        return true;
      }
      if exceptClose {
        if sysno == close {
          return true;
        }
      }
      if sysno == fchdir {
        if exceptFchdir {
          return true;
        }
      }
      return found;
    }
  }

  lemma ApplyNothing(v: View, t: nat, fd: int)
    requires Good(v) && t in v.group && !InRange(fd)
    ensures Apply(v, Op.AddFd(t, fd)) == v && Apply(v, Op.DelFd(t, fd)) == v
  {}

  lemma ApplySets(v: View, t: nat, fd: int)
    requires Good(v) && t in v.group && InRange(fd)
    ensures Apply(v, Op.AddFd(t, fd)) == Reset(v, t, Sees(v, t) + {fd})
    ensures Apply(v, Op.DelFd(t, fd)) == Reset(v, t, Sees(v, t) - {fd})
    ensures Good(Reset(v, t, Sees(v, t) + {fd})) && Good(Reset(v, t, Sees(v, t) - {fd}))
  {}

  lemma ApplyLeave(v: View, t: nat)
    ensures Apply(v, Op.Leave(t)) == v.(group := v.group - {t})
  {}

  lemma AloneGood(v: View, t: nat, parent: Option<nat>)
    requires Good(v) && (parent.Some? ==> parent.value in v.group)
    ensures Good(Alone(v, t, if parent.Some? then Sees(v, parent.value) else {}))
  {}

  lemma EmptyContents(blk: Blocks)
    ensures Contents(blk, null) == {}
  {}

  lemma ThreadFacts(threads: Threads, users: Users, ptr: Pointers, blk: Blocks, view: View, t: nat)
    requires Ok(threads, users, ptr, blk, view) && t in threads
    ensures threads[t] in users && threads[t] in ptr && users[threads[t]] > 0
    ensures var b := ptr[threads[t]]; b != null ==> b in blk && BlockOk(blk[b]) && blk[b].ncopy > 0
    ensures Good(view) && t in view.group && Contents(blk, ptr[threads[t]]) == Sees(view, t)
  {
    assert SeesOk(threads, ptr, blk, view, t);
  }

  lemma LastOne(s: set<int>, x: int)
    requires x in s
    ensures |s - {x}| == |s| - 1
    ensures |s| == 1 <==> s - {x} == {}
  {}

  /**
    In every state the methods reach: a structure is allocated exactly when
    somebody refers to it, so it was freed, once, when its last owner left; the
    counts are those of the owners and of the descriptors; and the reference of a
    thread is null exactly when the thread sees no descriptor.
   */
  lemma StateExact(threads: Threads, users: Users, ptr: Pointers, blk: Blocks, view: View)
    requires Ok(threads, users, ptr, blk, view)
    ensures forall f :: f in users <==> exists t :: t in threads && threads[t] == f
    ensures forall f :: f in users ==> users[f] == |Owners.Of(threads, f)|
    ensures forall b: FdSysSet :: b in blk <==> exists f :: f in ptr && ptr[f] == b
    ensures forall b :: b in blk ==> blk[b].ncopy == |Owners.Of(ptr, b)| && blk[b].nfd == |blk[b].fds|
    ensures forall t :: t in threads ==> threads[t] in ptr && (ptr[threads[t]] == null <==> Sees(view, t) == {})
  {
    hide ViewOk, Sees;
    forall f | f in users ensures exists t :: t in threads && threads[t] == f {
      var t :| t in Owners.Of(threads, f);
    }
    forall b | b in blk ensures exists f :: f in ptr && ptr[f] == b {
      var f :| f in Owners.Of(ptr, b);
    }
    forall t | t in threads ensures threads[t] in ptr && (ptr[threads[t]] == null <==> Sees(view, t) == {}) {
      ThreadFacts(threads, users, ptr, blk, view, t);
    }
  }
}
