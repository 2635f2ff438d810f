/**
  The kmview protocol as a state machine: traced threads clone, enter and leave
  system calls and die; tracers read a queue of events and answer.  Every step
  is one callback, read or ioctl of the module.
 */
module Tracer {
  import Id = KmpidSpec
  import opened Wrappers

  type Ref = Id.Thread    // a thread structure; one allocated later is a different one
  type TracerId = nat

  datatype Tag = NewThread | TermThread | SyscallEntry | SyscallExit

  /** A queued event; cloner remembers who cloned, which the module does not store. */
  datatype Event = Event(tag: Tag, thread: Ref, arg: int, cloner: Option<Ref>)

  /** Where a thread is: in user code, stopped at a call's entry or exit, inside a call, or reaped. */
  datatype Pc = User | AtEntry | InCall | AtExit | Gone

  /** The last system call event of a thread: none, still queued, read by the tracer, or answered. */
  datatype Pending = NoEvent | Queued(tag: Tag) | Delivered(tag: Tag) | Replied

  datatype Reply = SysResume | SysVirtualized | SysModified(scno: int) | SysArgMod(scno: int) | SysReturn

  /**
    skipExit and skipCall are the two skip flags, scno the call number saved at
    entry, regs the one in the registers, saved whether the pointer to these has
    been set and kmstop the semaphore the thread stops on.  pending, entered,
    answer and announced are history: the fate of the last event, the call the
    thread asked for last, how that was answered, and whether the tracer has
    been told of the thread.
   */
  datatype Thread = Thread(tracer: TracerId, kmpid: nat, umpid: int, skipExit: bool, skipCall: bool,
                           scno: int, regs: int, saved: bool, kmstop: nat, pc: Pc,
                           pending: Pending, entered: Option<int>, answer: Option<Reply>, announced: bool)

  datatype Tracer = Tracer(ntraced: int, queue: seq<Event>)

  datatype State = State(ids: Id.Ids, threads: map<Ref, Thread>, tracers: map<TracerId, Tracer>, next: Ref)

  datatype Action =
    | Open(tr: TracerId)
    | Attach(tr: TracerId, scno: int, regs: int)
    | Clone(parent: Ref, scno: int)
    | Entry(t: Ref, number: int, deliver: bool)   // deliver: what the tracer's filters decide
    | Exit(t: Ref)
    | Wake(t: Ref)
    | Reap(t: Ref)
    | Read(tr: TracerId, reused: bool)   // reused: the memory of dead tasks has been given away
    | SetUmpid(tr: TracerId, kmpid: int, umpid: int)
    | Answer(tr: TracerId, kmpid: int, reply: Reply)
    | Release(tr: TracerId, reused: bool)

  /** A step is impossible now, touches memory it must not, or leads to a new state. */
  datatype Outcome = Blocked | Fault | Next(s: State)

  const INITIAL := State(Id.EMPTY, map[], map[], 0)

  function SetThread(s: State, t: Ref, th: Thread): State {
    s.(threads := s.threads[t := th])
  }

  function Enqueue(s: State, tr: TracerId, e: Event): State
    requires tr in s.tracers
  {
    s.(tracers := s.tracers[tr := s.tracers[tr].(queue := s.tracers[tr].queue + [e])])
  }

  function Count(s: State, tr: TracerId, delta: int): State
    requires tr in s.tracers
  {
    s.(tracers := s.tracers[tr := s.tracers[tr].(ntraced := s.tracers[tr].ntraced + delta)])
  }

  /** A new thread skips the exit of the call it is born in. */
  function Born(tr: TracerId, kmpid: nat, scno: int, regs: int): Thread {
    Thread(tr, kmpid, -1, true, false, scno, regs, false, 0, InCall, NoEvent, None, None, false)
  }

  function AddThread(s: State, tr: TracerId, scno: int, regs: int, arg: int, cloner: Option<Ref>): State
    requires tr in s.tracers
  {
    var s1 := State(Id.Alloc(s.ids, s.next), s.threads[s.next := Born(tr, Id.Next(s.ids), scno, regs)],
                    s.tracers, s.next + 1);
    Enqueue(Count(s1, tr, 1), tr, Event(NewThread, s.next, arg, cloner))
  }

  /** What a reply does to the thread it names. */
  function Answered(th: Thread, reply: Reply): Thread {
    var th1 := th.(kmstop := th.kmstop + 1, pending := Replied,
                   answer := if reply == SysReturn then th.answer else Some(reply));
    match reply
    case SysResume => th1.(skipExit := true, skipCall := false)
    case SysVirtualized => th1.(skipExit := true, skipCall := true, regs := -1)
    case SysModified(n) => th1.(skipExit := false, skipCall := false, regs := n)
    case SysArgMod(n) => th1.(skipExit := true, skipCall := false, regs := n)
    case SysReturn => th1.(skipExit := false, skipCall := false)
  }

  function Search(s: State, kmpid: int): Option<Ref> {
    if kmpid >= 0 && kmpid in s.ids.live then Some(s.ids.live[kmpid]) else None
  }

  /** A search for this id reads before the start of the id table. */
  predicate Wild(s: State, kmpid: int) {
    kmpid < 0 && s.ids.n > 0
  }

  predicate Dangling(s: State, kmpid: int) {
    var t := Search(s, kmpid);
    t.Some? && t.value !in s.threads
  }

  function FreeThread(s: State, t: Ref): State
    requires t in s.threads
  {
    s.(ids := Id.Free(s.ids, s.threads[t].kmpid), threads := s.threads - {t})
  }

  /** Frees the threads of a tracer, going through the ids below n in order. */
  function Sweep(s: State, tr: TracerId, n: nat): Outcome {
    if n == 0 then Next(s) else
      var o := Sweep(s, tr, n - 1);
      if !o.Next? then o else
        var t := Search(o.s, n - 1);
        if t.None? then o
        else if t.value !in o.s.threads then Fault
        else if o.s.threads[t.value].tracer != tr then o
        else Next(FreeThread(o.s, t.value))
  }

  function DoEntry(s: State, t: Ref, number: int, deliver: bool): State
    requires t in s.threads && s.threads[t].tracer in s.tracers
  {
    var th := s.threads[t].(scno := number, regs := number, entered := Some(number), answer := None);
    if deliver then
      Enqueue(SetThread(s, t, th.(saved := true, pc := AtEntry, pending := Queued(SyscallEntry))), th.tracer,
              Event(SyscallEntry, t, 0, None))
    else SetThread(s, t, th.(pc := InCall, skipExit := true, skipCall := false))
  }

  function DoExit(s: State, t: Ref): State
    requires t in s.threads && s.threads[t].tracer in s.tracers
  {
    var th := s.threads[t];
    var th1 := th.(saved := true, regs := if th.skipCall then th.scno else th.regs);
    if th.skipExit then SetThread(s, t, th1.(pc := User))
    else Enqueue(SetThread(s, t, th1.(pc := AtExit, pending := Queued(SyscallExit))), th.tracer,
                 Event(SyscallExit, t, 0, None))
  }

  /** A stopped thread goes on once its semaphore is up. */
  function Woken(th: Thread): Thread
    requires th.kmstop > 0
  {
    th.(kmstop := th.kmstop - 1, pending := NoEvent, pc := if th.pc == AtEntry then InCall else User)
  }

  /** A thread dies: its tracer counts one less and gets an event with the number left. */
  function DoReap(s: State, t: Ref): State
    requires t in s.threads && s.threads[t].tracer in s.tracers
  {
    var th := s.threads[t];
    var s1 := Count(SetThread(s, t, th.(pc := Gone)), th.tracer, -1);
    Enqueue(s1, th.tracer, Event(TermThread, t, s1.tracers[th.tracer].ntraced, None))
  }

  function Pop(s: State, tr: TracerId): State
    requires tr in s.tracers && s.tracers[tr].queue != []
  {
    s.(tracers := s.tracers[tr := s.tracers[tr].(queue := s.tracers[tr].queue[1..])])
  }

  /** Reading the first event of a queue; reading a death frees the thread. */
  function DoRead(s: State, tr: TracerId): Outcome
    requires tr in s.tracers && s.tracers[tr].queue != []
  {
    var e := s.tracers[tr].queue[0];
    if e.thread !in s.threads then Fault else
      var th := s.threads[e.thread];
      match e.tag
      case NewThread =>
        if Dangling(s, e.arg) then Fault
        else Next(SetThread(Pop(s, tr), e.thread, th.(announced := true)))
      case TermThread => Next(FreeThread(Pop(s, tr), e.thread))
      case _ => Next(SetThread(Pop(s, tr), e.thread, th.(pending := Delivered(e.tag))))
  }

  /** The first event of a queue is read through the task of a thread that is dead. */
  predicate DeadHead(s: State, tr: TracerId)
    requires tr in s.tracers && s.tracers[tr].queue != []
  {
    var e := s.tracers[tr].queue[0];
    e.tag != TermThread && e.thread in s.threads && s.threads[e.thread].pc == Gone
  }

  /** A tracer has a dead thread that it has not been told of. */
  predicate DeadThread(s: State, tr: TracerId) {
    exists t :: t in s.threads && s.threads[t].tracer == tr && s.threads[t].pc == Gone
  }

  /** There are no registers to write to: their address was never taken, or the task is dead. */
  predicate NoRegisters(th: Thread) {
    !th.saved || th.pc == Gone
  }

  /** The parent a NEWTHREAD event reports: the umpid of the thread its kmpid names now. */
  function Umppid(s: State, e: Event): int {
    var parent := Search(s, e.arg);
    if parent.None? || parent.value !in s.threads then -1 else s.threads[parent.value].umpid
  }

  /** The thread an ioctl may act on: an existing one of the calling tracer. */
  function Target(s: State, tr: TracerId, kmpid: int): Option<Ref> {
    var t := Search(s, kmpid);
    if t.Some? && t.value in s.threads && s.threads[t.value].tracer == tr then t else None
  }

  function Step(s: State, a: Action): Outcome {
    match a
    case Open(tr) => if tr in s.tracers then Blocked else Next(s.(tracers := s.tracers[tr := Tracer(0, [])]))
    case Attach(tr, scno, regs) => if tr !in s.tracers then Blocked else Next(AddThread(s, tr, scno, regs, -1, None))
    case Clone(p, scno) =>
      if p !in s.threads || s.threads[p].pc != InCall then Blocked
      else if s.threads[p].tracer !in s.tracers then Fault
      else Next(AddThread(s, s.threads[p].tracer, scno, s.threads[p].regs, s.threads[p].kmpid, Some(p)))
    case Entry(t, number, deliver) =>
      if t !in s.threads || s.threads[t].pc != User then Blocked
      else if s.threads[t].tracer !in s.tracers then Fault
      else Next(DoEntry(s, t, number, deliver))
    case Exit(t) =>
      if t !in s.threads || s.threads[t].pc != InCall then Blocked
      else if s.threads[t].tracer !in s.tracers then Fault
      else Next(DoExit(s, t))
    case Wake(t) =>
      if t !in s.threads || s.threads[t].kmstop == 0 then Blocked
      else if s.threads[t].pc != AtEntry && s.threads[t].pc != AtExit then Blocked
      else Next(SetThread(s, t, Woken(s.threads[t])))
    case Reap(t) =>
      if t !in s.threads || (s.threads[t].pc != User && s.threads[t].pc != InCall) then Blocked
      else if s.threads[t].tracer !in s.tracers then Fault
      else Next(DoReap(s, t))
    case Read(tr, reused) =>
      if tr !in s.tracers || s.tracers[tr].queue == [] then Blocked
      else if reused && DeadHead(s, tr) then Fault
      else DoRead(s, tr)
    case SetUmpid(tr, kmpid, umpid) =>
      var t := Target(s, tr, kmpid);
      if tr !in s.tracers then Blocked
      else if Wild(s, kmpid) || Dangling(s, kmpid) then Fault
      else if t.None? then Next(s)
      else Next(SetThread(s, t.value, s.threads[t.value].(umpid := umpid)))
    case Answer(tr, kmpid, reply) =>
      var t := Target(s, tr, kmpid);
      if tr !in s.tracers then Blocked
      else if Wild(s, kmpid) || Dangling(s, kmpid) then Fault
      else if t.None? then Next(s)
      else if reply != SysResume && NoRegisters(s.threads[t.value]) then Fault
      else Next(SetThread(s, t.value, Answered(s.threads[t.value], reply)))
    case Release(tr, reused) =>
      if tr !in s.tracers then Blocked
      else if reused && DeadThread(s, tr) then Fault else
        var o := Sweep(s, tr, s.ids.n);
        if o.Next? then Next(o.s.(tracers := o.s.tracers - {tr})) else o
  }
}
