/**
  Which system calls the kmview module delivers to a tracer: the filters at the
  entry of a call, over the fd sets of the threads and the table of ghost mounts.
 */
module EntryFilter {
  import opened GhostHashSpec
  import opened Wrappers
  import FdSet
  import FdSetSpec
  import GhostHash

  const SLASH: bv8 := 0x2f

  /** What a tracer has asked for, and the call tables of the architecture. */
  datatype Filters = Filters(bitmap: set<nat>, skipPaths: bool, fdset: bool, exceptClose: bool, exceptFchdir: bool,
                             pathCalls: set<nat>, selectPoll: set<nat>, mmaps: set<nat>, fdCalls: set<nat>,
                             close: nat, fchdir: nat)

  /** A call: its number, its first and fifth argument, and its path argument when there is one that can be read. */
  datatype Call = Call(number: nat, arg0: int, arg4: int, path: Option<Path>)

  /** Whether the path of a call is absolute and the table of ghost mounts matches it. */
  predicate Ghosted(slots: seq<Slot>, call: Call, after: Path) {
    && call.path.Some? && call.path.value != [] && call.path.value[0] == SLASH
    && MatchFrom(slots, call.path.value + [0] + after, 0, |call.path.value| % USHORT).Hit?
  }

  predicate Excepted(f: Filters, number: nat) {
    (f.exceptClose && number == f.close) || (f.exceptFchdir && number == f.fchdir)
  }

  /** The descriptor tests of a tracer that keeps fd sets; seen are the virtual descriptors of the thread. */
  predicate FdWanted(f: Filters, call: Call, seen: set<int>) {
    && (call.number in f.selectPoll ==> seen != {})
    && (call.number in f.mmaps ==> call.arg4 in seen)
    && (call.number in f.fdCalls && !Excepted(f, call.number) ==> call.arg0 in seen)
  }

  /** The calls that reach the tracer. */
  predicate Wanted(f: Filters, call: Call, chroot: bool, ghosted: bool, seen: set<int>) {
    && call.number !in f.bitmap
    && (f.skipPaths && call.number in f.pathCalls && !chroot ==> ghosted)
    && (f.fdset ==> FdWanted(f, call, seen))
  }

  /**
    Which calls on descriptors reach a tracer that keeps fd sets, when no other
    filter drops them: mmap by its fifth argument, select and poll when there
    is any virtual descriptor, the others by their first argument unless
    excepted, and every call that takes no descriptor.
   */
  lemma DescriptorDecides(f: Filters, call: Call, chroot: bool, ghosted: bool, seen: set<int>)
    requires f.fdset && call.number !in f.bitmap && (f.skipPaths && call.number in f.pathCalls ==> chroot || ghosted)
    ensures Wanted(f, call, chroot, ghosted, seen) && call.number in f.mmaps ==> call.arg4 in seen
    ensures call.number in f.mmaps - f.selectPoll - f.fdCalls ==>
              (Wanted(f, call, chroot, ghosted, seen) <==> call.arg4 in seen)
    ensures call.number in f.selectPoll - f.mmaps - f.fdCalls ==>
              (Wanted(f, call, chroot, ghosted, seen) <==> exists fd :: fd in seen)
    ensures call.number in f.fdCalls - f.mmaps - f.selectPoll ==>
              (Wanted(f, call, chroot, ghosted, seen) <==>
               || call.arg0 in seen
               || (call.number == f.close && f.exceptClose) || (call.number == f.fchdir && f.exceptFchdir))
    ensures call.number !in f.mmaps + f.selectPoll + f.fdCalls ==> Wanted(f, call, chroot, ghosted, seen)
  {
    if forall fd :: fd !in seen {
      assert seen == {};
    }
  }

  /** A call on a path that the tracer skips is dropped, whatever its descriptors, unless a ghost mount has it. */
  lemma SkippedPath(f: Filters, call: Call, ghosted: bool, seen: set<int>)
    requires f.skipPaths && call.number in f.pathCalls
    ensures Wanted(f, call, false, ghosted, seen) <==> ghosted && Wanted(f, call, true, ghosted, seen)
    ensures Wanted(f, call, true, ghosted, seen) == Wanted(f.(skipPaths := false), call, false, false, seen)
  {}

  /** Whether the scan of a path runs out of the memory that can be read. */
  predicate Overruns(slots: seq<Slot>, call: Call, after: Path) {
    && call.path.Some? && call.path.value != [] && call.path.value[0] == SLASH
    && MatchFrom(slots, call.path.value + [0] + after, 0, |call.path.value| % USHORT) == Overread
  }

  /** Only a call with an absolute path can be on a ghost mount. */
  lemma OnlyAbsolute(slots: seq<Slot>, call: Call, after: Path)
    requires Ghosted(slots, call, after) || Overruns(slots, call, after)
    ensures call.path.Some? && call.path.value != [] && call.path.value[0] == 0x2f
  {}

  /** Whether a path is an exception to skipping path calls; after is the readable memory behind it. */
  method PathException(ghosts: GhostHash.Table, call: Call, after: Path) returns (r: bool, overread: bool)
    requires ghosts.Valid()
    ensures overread <==> Overruns(ghosts.Slots(), call, after)
    ensures !overread ==> (r <==> Ghosted(ghosts.Slots(), call, after))
  {
    hide MatchFrom;
    if call.path.None? {
      return false, false;
    }
    var path := call.path.value;
    if path == [] || path[0] != SLASH {
      return false, false;
    }
    var m := ghosts.Match(path + [0] + after, |path|);
    return m.Hit?, m == Overread;
  }

  /** Whether the entry of a call by thread t is delivered. */
  method Delivers(f: Filters, kernel: FdSet.Kernel, ghosts: GhostHash.Table, t: nat, chroot: bool,
                  call: Call, after: Path)
    returns (deliver: bool, overread: bool)
    requires kernel.Valid() && t in kernel.threads && ghosts.Valid()
    ensures overread ==> Overruns(ghosts.Slots(), call, after)
    ensures !overread ==>
              var ghosted := Ghosted(ghosts.Slots(), call, after);
              (deliver <==> Wanted(f, call, chroot, ghosted, FdSetSpec.Sees(kernel.view, t)))
  {
    hide MatchFrom, Ghosted, Overruns, FdSet.Kernel.Valid, FdSetSpec.Good, FdSetSpec.Sees;
    overread := false;
    if call.number in f.bitmap {
      return false, false;
    }
    if f.skipPaths && call.number in f.pathCalls {
      if !chroot {
        var exception;
        exception, overread := PathException(ghosts, call, after);
        if overread || !exception {
          return false, overread;
        }
      }
    }
    if f.fdset {
      var none := kernel.HasNoFd(t);
      if call.number in f.selectPoll && none {
        return false, false;
      }
      var mapped := kernel.IsInFdSet(call.arg4, t);
      if call.number in f.mmaps && !mapped {
        return false, false;
      }
      deliver := kernel.IsKmviewFd(call.number, call.arg0, t, f.fdCalls, f.close, f.fchdir,
                                   f.exceptClose, f.exceptFchdir);
    } else {
      deliver := true;
    }
  }

  /**
    A ghost mount is never missed: after any history of the table in which no
    delete took the pair of another path, a call on a path under a stored path
    is not dropped for its path.
   */
  lemma GhostMountReached(ops: seq<Op>, b: Book, slots: seq<Slot>, p: Path, f: Filters, call: Call, after: Path,
                          chroot: bool, seen: set<int>)
    requires History(BLANK, ops, b) && Harmless(BLANK, ops) && Decode(slots, 0) == b.es
    requires p in b.stored && call.path.Some? && p <= call.path.value && |call.path.value| < USHORT
    requires call.path.value != [] && call.path.value[0] == SLASH
    ensures Ghosted(slots, call, after) && !Overruns(slots, call, after)
    ensures call.number !in f.bitmap && (f.fdset ==> FdWanted(f, call, seen)) ==>
              Wanted(f, call, chroot, Ghosted(slots, call, after), seen)
  {
    hide MatchFrom, Decode, History, Harmless;
    var path := call.path.value;
    HarmlessHistoryMatches(ops, b, slots, p, path, [0] + after);
    assert path + ([0] + after) == path + [0] + after;
    assert |path| % USHORT == |path|;
  }
}
