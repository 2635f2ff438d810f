/**
  The kmview module itself: its threads, tracers and queues updated in place
  over the two-level id table.  Every callback, read and ioctl does one step of
  the protocol, and the invariant of the protocol is what makes each access
  to a thread or tracer structure safe.
 */
module Kmview {
  import opened Tracer
  import opened Wrappers
  import opened TracerSafety
  import opened TracerReports
  import Id = KmpidSpec
  import Kmpid

  const EPERM := 1

  /** A tracer has a dead thread with an id below n. */
  ghost predicate DeadBelow(s: State, tr: TracerId, n: nat) {
    exists t :: t in s.threads && s.threads[t].tracer == tr && s.threads[t].pc == Gone && s.threads[t].kmpid < n
  }

  /** The dead threads a sweep meets: one more when the thread it frees next is dead. */
  lemma DeadMore(s: State, tr: TracerId, n: nat)
    requires Named(s) && n < s.ids.n && Sweep(s, tr, n).Next? && Named(Sweep(s, tr, n).s)
    ensures var s1 := Sweep(s, tr, n).s;
      var dead := n in s1.ids.live && s1.threads[s1.ids.live[n]].tracer == tr && s1.threads[s1.ids.live[n]].pc == Gone;
      DeadBelow(s, tr, n + 1) <==> DeadBelow(s, tr, n) || dead
  {
    hide Sweep, Id.Good;
    SweepNamed(s, tr, n);
  }

  lemma DeadAll(s: State, tr: TracerId)
    requires Named(s)
    ensures !DeadBelow(s, tr, 0) && (DeadBelow(s, tr, s.ids.n) <==> DeadThread(s, tr))
  {
    forall t | t in s.threads ensures 0 <= s.threads[t].kmpid < s.ids.n {}
  }

  class Module {
    const table: Kmpid.Table
    var threads: map<Ref, Thread>
    var tracers: map<TracerId, Tracer>
    var next: Ref

    /** The state of the protocol that the module is in. */
    ghost function View(): State
      reads this, table`ids
    {
      State(table.ids, threads, tracers, next)
    }

    ghost predicate Valid()
      reads this, table, table.head, table.pages
    {
      table.Valid() && Inv(View())
    }

    constructor ()
      ensures Valid() && View() == INITIAL && fresh(table)
    {
      table := new Kmpid.Table();
      threads, tracers, next := map[], map[], 0;
      new;
      InitialInv();
    }

    /** Appends an event to the queue of the tracer of its thread. */
    method EventEnqueue(e: Event)
      requires e.thread in threads && threads[e.thread].tracer in tracers
      modifies this`tracers
      ensures View() == Enqueue(old(View()), threads[e.thread].tracer, e)
    {
      var tr := threads[e.thread].tracer;
      tracers := tracers[tr := tracers[tr].(queue := tracers[tr].queue + [e])];
    }

    /** A thread structure with a fresh id, counted by its tracer. */
    method NewThread(tr: TracerId, scno: int, regs: int, arg: int, cloner: Option<Ref>) returns (kmpid: nat)
      requires Valid() && tr in tracers && (cloner == None ==> arg == -1)
      requires cloner.Some? ==>
                 && IsThread(threads, tr, cloner.value)
                 && threads[cloner.value].kmpid == arg && threads[cloner.value].pc != Gone
      modifies this, table, table.head, table.pages
      ensures Valid() && View() == AddThread(old(View()), tr, scno, regs, arg, cloner)
      ensures kmpid !in old(table.ids.live) && kmpid in table.ids.live && table.ids.live[kmpid] == old(next)
      ensures table.head == old(table.head) || fresh(table.head)
      ensures forall p :: p in table.pages ==> p in old(table.pages) || fresh(p)
    {
      hide Inv, Id.Good, Kmpid.Table.Pages, Kmpid.Refines;
      AddThreadInv(View(), tr, scno, regs, arg, cloner);
      var t := next;
      kmpid := table.Alloc(t);
      threads := threads[t := Born(tr, kmpid, scno, regs)];
      tracers := tracers[tr := tracers[tr].(ntraced := tracers[tr].ntraced + 1)];
      next := next + 1;
      EventEnqueue(Event(Tag.NewThread, t, arg, cloner));
    }

    method Clone(p: Ref, scno: int) returns (kmpid: nat)
      requires Valid() && p in threads && threads[p].pc == InCall
      modifies this, table, table.head, table.pages
      ensures Valid() && Step(old(View()), Action.Clone(p, scno)) == Next(View())
      ensures kmpid !in old(table.ids.live) && kmpid in table.ids.live && table.ids.live[kmpid] == old(next)
    {
      hide Inv, AddThread, Kmpid.Table.Pages, Kmpid.Refines;
      ThreadTracer(View(), p);
      kmpid := NewThread(threads[p].tracer, scno, threads[p].regs, threads[p].kmpid, Some(p));
    }

    method Reap(t: Ref)
      requires Valid() && t in threads && (threads[t].pc == User || threads[t].pc == InCall)
      modifies this
      ensures Valid() && Step(old(View()), Action.Reap(t)) == Next(View())
    {
      hide Inv;
      ThreadTracer(View(), t);
      ReapInv(View(), t);
      var tr := threads[t].tracer;
      threads := threads[t := threads[t].(pc := Gone)];
      tracers := tracers[tr := tracers[tr].(ntraced := tracers[tr].ntraced - 1)];
      var remaining := tracers[tr].ntraced;
      EventEnqueue(Event(TermThread, t, remaining, None));
    }

    method SyscallEntry(t: Ref, number: int, deliver: bool)
      requires Valid() && t in threads && threads[t].pc == User
      modifies this
      ensures Valid() && Step(old(View()), Action.Entry(t, number, deliver)) == Next(View())
    {
      hide Inv;
      ThreadTracer(View(), t);
      CallInv(View(), t, number, deliver);
      var th := threads[t].(scno := number, regs := number, entered := Some(number), answer := None);
      if deliver {
        threads := threads[t := th.(saved := true, pc := AtEntry, pending := Queued(Tag.SyscallEntry))];
        EventEnqueue(Event(Tag.SyscallEntry, t, 0, None));
      } else {
        threads := threads[t := th.(pc := InCall, skipExit := true, skipCall := false)];
      }
    }

    method SyscallExit(t: Ref)
      requires Valid() && t in threads && threads[t].pc == InCall
      modifies this
      ensures Valid() && Step(old(View()), Action.Exit(t)) == Next(View())
    {
      hide Inv;
      ThreadTracer(View(), t);
      CallInv(View(), t, 0, false);
      var th := threads[t].(saved := true);
      if th.skipCall {
        th := th.(regs := th.scno);
      }
      if th.skipExit {
        threads := threads[t := th.(pc := User)];
      } else {
        threads := threads[t := th.(pc := AtExit, pending := Queued(Tag.SyscallExit))];
        EventEnqueue(Event(Tag.SyscallExit, t, 0, None));
      }
    }

    /** Frees a thread structure and gives its id back. */
    method ThreadFree(t: Ref)
      requires table.Valid() && Named(View()) && t in threads
      modifies this`threads, table, table.pages
      ensures table.Valid() && View() == FreeThread(old(View()), t)
      ensures table.head == old(table.head) && table.pages == old(table.pages)
    {
      var wild := table.Free(threads[t].kmpid);
      threads := threads - {t};
    }

    /**
      Takes the first event off a queue; its thread exists, and so does the
      parent of a new thread.  fault: the event was read through a dead task
      whose memory had been reused.
     */
    method FillEvent(tr: TracerId, reused: bool) returns (r: Report, fault: bool)
      requires Valid() && tr in tracers && tracers[tr].queue != []
      modifies this, table, table.pages
      ensures Valid() && Step(old(View()), Action.Read(tr, false)) == Next(View())
      ensures fault <==> Step(old(View()), Action.Read(tr, reused)) == Fault
      ensures old(tracers[tr].queue[0].thread in threads)
      ensures r == ReportOf(old(View()), old(tracers[tr].queue[0]))
    {
      hide Inv, Id.Good, Id.Free, Kmpid.Table.Pages, Kmpid.Refines;
      ReadInv(View(), tr);
      HeadThread(View(), tr);
      InvNamed(View());
      var e := tracers[tr].queue[0];
      var th := threads[e.thread];
      fault := reused && e.tag != TermThread && th.pc == Gone;
      tracers := tracers[tr := tracers[tr].(queue := tracers[tr].queue[1..])];
      match e.tag
      case NewThread =>
        var umppid := -1;
        if e.arg >= 0 {
          var parent, _ := table.Search(e.arg);
          if parent.Some? {
            umppid := threads[parent.value].umpid;
          }
        }
        threads := threads[e.thread := th.(announced := true)];
        r := Birth(th.kmpid, umppid);
      case TermThread =>
        r := Death(th.umpid, e.arg);
        ThreadFree(e.thread);
      case SyscallEntry =>
        r := Call(th.umpid, th.regs);
        threads := threads[e.thread := th.(pending := Delivered(e.tag))];
      case SyscallExit =>
        r := Return(th.umpid);
        threads := threads[e.thread := th.(pending := Delivered(e.tag))];
    }

    /**
      A reply ioctl: refused exactly when the id names no thread of the calling
      tracer; a negative id reads before the id table when that has an entry,
      and a reply other than SYSRESUME writes to the registers untested.
     */
    method SysReply(tr: TracerId, kmpid: int, reply: Reply) returns (ret: int, fault: bool)
      requires Valid() && tr in tracers
      modifies this`threads
      ensures Valid()
      ensures fault <==> Hazard(old(View()), Action.Answer(tr, kmpid, reply))
      ensures Step(old(View()), Action.Answer(tr, kmpid, reply)) == if fault then Fault else Next(View())
      ensures fault ==> View() == old(View())
      ensures !fault ==> ret == if Target(old(View()), tr, kmpid).Some? then 0 else -EPERM
    {
      hide Inv, Id.Good;
      StepSafe(View(), Action.Answer(tr, kmpid, reply));
      SearchExists(View(), kmpid);
      var found, wild := table.Search(kmpid);
      if wild {
        return 0, true;
      }
      if found.None? || threads[found.value].tracer != tr {
        return -EPERM, false;
      }
      if reply != SysResume && NoRegisters(threads[found.value]) {
        return 0, true;
      }
      threads := threads[found.value := Answered(threads[found.value], reply)];
      return 0, false;
    }

    lemma TableSize()
      requires Valid()
      ensures table.nthread == table.ids.n
    {}

    /**
      Closing a tracer frees all its threads and its queue.  fault: it detached
      from a dead task whose memory had been reused.
     */
    method Release(tr: TracerId, reused: bool) returns (fault: bool)
      requires Valid() && tr in tracers
      modifies this, table, table.pages
      ensures Valid() && Step(old(View()), Action.Release(tr, false)) == Next(View())
      ensures fault <==> Step(old(View()), Action.Release(tr, reused)) == Fault
    {
      hide Inv, Id.Good, Sweep, Named, DeadBelow, DeadThread, Kmpid.Table.Pages, Kmpid.Refines;
      ghost var s := View();
      InvNamed(s);
      ReleaseInv(s, tr);
      SweepNone(s, tr);
      DeadAll(s, tr);
      fault := false;
      TableSize();
      var i, n := 0, table.nthread;
      while i < n
        invariant 0 <= i <= n == s.ids.n && table.Valid()
        invariant Sweep(s, tr, i) == Outcome.Next(View())
        invariant table.head == old(table.head) && table.pages == old(table.pages)
        invariant fault <==> reused && DeadBelow(s, tr, i)
      {
        SweepNamed(s, tr, i);
        SweepMore(s, tr, i);
        DeadMore(s, tr, i);
        ThreadNamed(View(), i);
        var found, _ := table.Search(i);
        if found.Some? && threads[found.value].tracer == tr {
          fault := fault || (reused && threads[found.value].pc == Gone);
          ThreadFree(found.value);
        }
        i := i + 1;
      }
      tracers := tracers - {tr};
    }
  }

  lemma ThreadNamed(s: State, id: nat)
    requires Named(s)
    ensures id in s.ids.live ==> s.ids.live[id] in s.threads
  {}

  lemma SweepNone(s: State, tr: TracerId)
    ensures Sweep(s, tr, 0) == Next(s)
  {}

  lemma SweepMore(s: State, tr: TracerId, n: nat)
    requires Sweep(s, tr, n).Next? && Named(Sweep(s, tr, n).s)
    ensures var s1 := Sweep(s, tr, n).s;
      Sweep(s, tr, n + 1) ==
        if n in s1.ids.live && s1.threads[s1.ids.live[n]].tracer == tr then Next(FreeThread(s1, s1.ids.live[n]))
        else Next(s1)
  {}
}
