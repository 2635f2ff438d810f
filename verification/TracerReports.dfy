/**
  What the events that a tracer reads mean: every number in a report is tied to
  the actions of the run that led there, and no step of one tracer reaches the
  threads and events of another.
 */
module TracerReports {
  import opened Tracer
  import opened Wrappers
  import opened TracerSafety
  import opened TracerReplies
  import Id = KmpidSpec

  /** What reading an event tells the tracer: the ids and numbers copied into its buffer. */
  datatype Report =
    | Birth(kmpid: nat, umppid: int)
    | Death(umpid: int, remaining: int)
    | Call(umpid: int, scno: int)
    | Return(umpid: int)

  /** The report of an event in a state. */
  function ReportOf(s: State, e: Event): Report
    requires e.thread in s.threads
  {
    var th := s.threads[e.thread];
    match e.tag
    case NewThread => Birth(th.kmpid, Umppid(s, e))
    case TermThread => Death(th.umpid, e.arg)
    case SyscallEntry => Call(th.umpid, th.regs)
    case SyscallExit => Return(th.umpid)
  }

  // ---- What a run says about a thread ----

  /**
    The umpid it was given last, the call it asked for last and how that was
    answered, whether it has stopped at a call or come out of one, the thread
    that cloned it, and how many threads of its tracer were left when it died.
   */
  datatype Log = Log(umpid: int, asked: Option<int>, answer: Option<Reply>, called: bool, parent: Option<Ref>,
                     left: Option<int>)

  const NOTHING := Log(-1, None, None, false, None, None)

  /** The log after action a was taken in state s. */
  function Note(s: State, a: Action, t: Ref, log: Log): Log {
    match a
    case Clone(p, _) => if t == s.next then log.(parent := Some(p)) else log
    case Entry(u, number, deliver) =>
      if u == t then log.(asked := Some(number), answer := None, called := log.called || deliver) else log
    case Exit(u) => if u == t then log.(called := true) else log
    case Reap(u) =>
      if u == t && t in s.threads then log.(left := Some(|Traced(s.threads, s.threads[t].tracer) - {t}|)) else log
    case SetUmpid(tr, kmpid, umpid) => if Target(s, tr, kmpid) == Some(t) then log.(umpid := umpid) else log
    case Answer(tr, kmpid, reply) =>
      if reply != SysReturn && Target(s, tr, kmpid) == Some(t) then log.(answer := Some(reply)) else log
    case _ => log
  }

  /** The log of a thread after a run. */
  function LogOf(s: State, actions: seq<Action>, t: Ref, log: Log): Log
    decreases |actions|
  {
    if actions == [] then log else
      match Step(s, actions[0])
      case Next(s1) => LogOf(s1, actions[1..], t, Note(s, actions[0], t, log))
      case _ => LogOf(s, actions[1..], t, log)
  }

  /** The events of a queue about the birth and the death of t say what the log says. */
  ghost predicate Noted(q: seq<Event>, t: Ref, log: Log) {
    forall i :: 0 <= i < |q| && q[i].thread == t ==>
      && (q[i].tag == NewThread ==> q[i].cloner == log.parent)
      && (q[i].tag == TermThread ==> log.left == Some(q[i].arg))
  }

  predicate Agrees(th: Thread, log: Log) {
    && th.umpid == log.umpid && th.entered == log.asked && th.answer == log.answer
    && th.saved == log.called && (th.pc == Gone <==> log.left.Some?)
  }

  ghost predicate LogOk(s: State, t: Ref, log: Log) {
    && (t in s.threads ==> Agrees(s.threads[t], log))
    && (t >= s.next ==> log == NOTHING)
    && (forall tr :: tr in s.tracers ==> Noted(s.tracers[tr].queue, t, log))
  }

  /** No event is about a thread that is still to be allocated, and none about the death of a live one. */
  lemma EventFacts(s: State, tr: TracerId, i: nat)
    requires Inv(s) && tr in s.tracers && i < |s.tracers[tr].queue|
    ensures var e := s.tracers[tr].queue[i];
      e.thread in s.threads && e.thread < s.next && (e.tag == TermThread ==> s.threads[e.thread].pc == Gone)
  {
    hide QueueOk, Id.Good;
    var q := s.tracers[tr].queue;
    EventReliable(s, tr, i);
    assert q[i].tag == TermThread ==> q[i].thread in Dying(q);
  }

  lemma InvBelow(s: State)
    requires Inv(s)
    ensures forall t :: t in s.threads ==> t < s.next
  {}

  lemma NotedAppend(q: seq<Event>, e: Event, t: Ref, log: Log)
    requires Noted(q, t, log)
    requires e.thread == t && e.tag == NewThread ==> e.cloner == log.parent
    requires e.thread == t && e.tag == TermThread ==> log.left == Some(e.arg)
    ensures Noted(q + [e], t, log)
  {}

  lemma NotedRest(q: seq<Event>, t: Ref, log: Log)
    requires q != [] && Noted(q, t, log)
    ensures Noted(q[1..], t, log)
  {
    var r := q[1..];
    forall i | 0 <= i < |r| ensures r[i] == q[i + 1] {}
  }

  lemma BirthLogged(s: State, tr: TracerId, scno: int, regs: int, arg: int, cloner: Option<Ref>, t: Ref, log: Log)
    requires Inv(s) && tr in s.tracers && LogOk(s, t, log)
    ensures LogOk(AddThread(s, tr, scno, regs, arg, cloner), t, if t == s.next then log.(parent := cloner) else log)
  {
    hide Inv, Noted;
    var s' := AddThread(s, tr, scno, regs, arg, cloner);
    var log' := if t == s.next then log.(parent := cloner) else log;
    forall u | u in s.tracers ensures Noted(s'.tracers[u].queue, t, log') {
      var q := s.tracers[u].queue;
      if t == s.next { Unmentioned(s, u, t, log'); }
      assert Noted(q, t, log');
      NotedAppend(q, Event(NewThread, s.next, arg, cloner), t, log');
    }
  }

  lemma Unmentioned(s: State, tr: TracerId, t: Ref, log: Log)
    requires Inv(s) && tr in s.tracers && t == s.next
    ensures Noted(s.tracers[tr].queue, t, log)
  {
    hide Inv;
    forall i | 0 <= i < |s.tracers[tr].queue| ensures s.tracers[tr].queue[i].thread != t { EventFacts(s, tr, i); }
  }

  lemma Undead(s: State, tr: TracerId, t: Ref, log: Log, left: int)
    requires Inv(s) && tr in s.tracers && t in s.threads && s.threads[t].pc != Gone
    requires Noted(s.tracers[tr].queue, t, log)
    ensures Noted(s.tracers[tr].queue, t, log.(left := Some(left)))
  {
    hide Inv;
    forall i | 0 <= i < |s.tracers[tr].queue| && s.tracers[tr].queue[i].thread == t
      ensures s.tracers[tr].queue[i].tag != TermThread { EventFacts(s, tr, i); }
  }

  lemma DeathLogged(s: State, u: Ref, t: Ref, log: Log)
    requires Inv(s) && u in s.threads && s.threads[u].pc != Gone && LogOk(s, t, log)
    ensures s.threads[u].tracer in s.tracers
    ensures LogOk(DoReap(s, u), t, Note(s, Reap(u), t, log))
  {
    hide Inv, Noted;
    ThreadTracer(s, u);
    InvBelow(s);
    var s', log', tr := DoReap(s, u), Note(s, Reap(u), t, log), s.threads[u].tracer;
    TracerCounts(s, tr);
    assert u in Traced(s.threads, tr);
    forall v | v in s.tracers ensures Noted(s'.tracers[v].queue, t, log') {
      if u == t { Undead(s, v, t, log, log'.left.value); }
      NotedAppend(s.tracers[v].queue, Event(TermThread, u, s.tracers[tr].ntraced - 1, None), t, log');
    }
  }

  /** A step on one thread that queues at most an event of its call. */
  lemma CallLogged(s: State, s': State, u: Ref, th: Thread, e: Event, t: Ref, log: Log, log': Log)
    requires LogOk(s, t, log) && u in s.threads && th.tracer in s.tracers
    requires s' == SetThread(s, u, th) || s' == Enqueue(SetThread(s, u, th), th.tracer, e)
    requires e.tag == SyscallEntry || e.tag == SyscallExit
    requires log'.parent == log.parent && log'.left == log.left && (t >= s.next ==> log' == log)
    requires if u == t then Agrees(th, log') else log' == log
    ensures LogOk(s', t, log')
  {
    hide Noted;
    forall v | v in s'.tracers ensures Noted(s'.tracers[v].queue, t, log') {
      NotedSame(s.tracers[v].queue, t, log, log');
      NotedAppend(s.tracers[v].queue, e, t, log');
    }
  }

  lemma NotedSame(q: seq<Event>, t: Ref, log: Log, log': Log)
    requires Noted(q, t, log) && log'.parent == log.parent && log'.left == log.left
    ensures Noted(q, t, log')
  {}

  lemma ReadLogged(s: State, tr: TracerId, t: Ref, log: Log)
    requires Inv(s) && tr in s.tracers && s.tracers[tr].queue != [] && LogOk(s, t, log)
    ensures DoRead(s, tr).Next? && LogOk(DoRead(s, tr).s, t, log)
  {
    hide Inv, Noted;
    ReadInv(s, tr);
    NotedRest(s.tracers[tr].queue, t, log);
  }

  lemma OpenLogged(s: State, tr: TracerId, t: Ref, log: Log)
    requires LogOk(s, t, log)
    ensures LogOk(s.(tracers := s.tracers[tr := Tracer(0, [])]), t, log)
  {}

  lemma ReleaseLogged(s: State, tr: TracerId, t: Ref, log: Log)
    requires Inv(s) && tr in s.tracers && LogOk(s, t, log)
    ensures Step(s, Release(tr, false)).Next? && LogOk(Step(s, Release(tr, false)).s, t, log)
  {
    hide Inv, Noted, Sweep;
    InvNamed(s);
    SweepNamed(s, tr, s.ids.n);
  }

  lemma LogFacts(s: State, t: Ref, log: Log)
    requires LogOk(s, t, log)
    ensures t in s.threads ==> Agrees(s.threads[t], log)
    ensures t >= s.next ==> log == NOTHING
  {}

  lemma EntryLogged(s: State, u: Ref, number: int, deliver: bool, t: Ref, log: Log)
    requires Inv(s) && u in s.threads && s.threads[u].tracer in s.tracers && s.threads[u].pc == User
    requires LogOk(s, t, log)
    ensures LogOk(DoEntry(s, u, number, deliver), t, Note(s, Entry(u, number, deliver), t, log))
  {
    hide Inv, LogOk;
    InvBelow(s);
    LogFacts(s, t, log);
    var s' := DoEntry(s, u, number, deliver);
    CallLogged(s, s', u, s'.threads[u], Event(SyscallEntry, u, 0, None), t, log,
               Note(s, Entry(u, number, deliver), t, log));
  }

  lemma ExitLogged(s: State, u: Ref, t: Ref, log: Log)
    requires Inv(s) && u in s.threads && s.threads[u].tracer in s.tracers && s.threads[u].pc == InCall
    requires LogOk(s, t, log)
    ensures LogOk(DoExit(s, u), t, Note(s, Exit(u), t, log))
  {
    hide Inv, LogOk;
    InvBelow(s);
    LogFacts(s, t, log);
    var s' := DoExit(s, u);
    CallLogged(s, s', u, s'.threads[u], Event(SyscallExit, u, 0, None), t, log, Note(s, Exit(u), t, log));
  }

  /** Every step keeps the log of a thread right. */
  lemma StepLogged(s: State, a: Action, t: Ref, log: Log)
    requires Inv(s) && LogOk(s, t, log) && Step(s, a).Next?
    ensures LogOk(Step(s, a).s, t, Note(s, a, t, log))
  {
    hide Inv, LogOk, DoRead, DoReap, DoEntry, DoExit, AddThread, Sweep, Named;
    var s', log' := Step(s, a).s, Note(s, a, t, log);
    InvBelow(s);
    LogFacts(s, t, log);
    var exit := Event(SyscallExit, 0, 0, None);
    match a
    case Open(tr) => OpenLogged(s, tr, t, log);
    case Attach(tr, scno, regs) => BirthLogged(s, tr, scno, regs, -1, None, t, log);
    case Clone(p, scno) =>
      BirthLogged(s, s.threads[p].tracer, scno, s.threads[p].regs, s.threads[p].kmpid, Some(p), t, log);
    case Entry(u, number, deliver) => EntryLogged(s, u, number, deliver, t, log);
    case Exit(u) => ExitLogged(s, u, t, log);
    case Wake(u) => ThreadTracer(s, u); CallLogged(s, s', u, s'.threads[u], exit, t, log, log');
    case Reap(u) => DeathLogged(s, u, t, log);
    case Read(tr, _) => ReadLogged(s, tr, t, log);
    case SetUmpid(tr, kmpid, umpid) =>
      var u := Target(s, tr, kmpid);
      if u.Some? { CallLogged(s, s', u.value, s'.threads[u.value], exit, t, log, log'); }
    case Answer(tr, kmpid, reply) =>
      var u := Target(s, tr, kmpid);
      if u.Some? { CallLogged(s, s', u.value, s'.threads[u.value], exit, t, log, log'); }
    case Release(tr, _) => ReleaseLogged(s, tr, t, log);
  }

  lemma {:induction false} RunLogged(s: State, actions: seq<Action>, s': State, t: Ref, log: Log)
    requires Inv(s) && Run(s, actions, s') && LogOk(s, t, log)
    ensures LogOk(s', t, LogOf(s, actions, t, log))
    decreases |actions|
  {
    hide Inv, Step, LogOk, Note;
    if actions != [] {
      StepSafe(s, actions[0]);
      match Step(s, actions[0])
      case Blocked => RunLogged(s, actions[1..], s', t, log);
      case Next(s1) =>
        StepLogged(s, actions[0], t, log);
        RunLogged(s1, actions[1..], s', t, Note(s, actions[0], t, log));
    }
  }

  /** In every state a run reaches, the log of every thread is right. */
  lemma Logged(actions: seq<Action>, s: State, t: Ref)
    requires Run(INITIAL, actions, s)
    ensures LogOk(s, t, LogOf(INITIAL, actions, t, NOTHING))
  {
    hide Run, LogOf;
    InitialInv();
    RunLogged(INITIAL, actions, s, t, NOTHING);
  }

  /**
    When a reply to an existing thread is a fault, over every run: when it is
    not SYSRESUME and the thread is dead, or has neither stopped at a call nor
    come out of one.
   */
  lemma ReplyFaultsIff(actions: seq<Action>, s: State, tr: TracerId, kmpid: int, reply: Reply, t: Ref)
    requires Run(INITIAL, actions, s) && tr in s.tracers && Target(s, tr, kmpid) == Some(t)
    ensures var log := LogOf(INITIAL, actions, t, NOTHING);
      Step(s, Answer(tr, kmpid, reply)) == Fault <==> reply != SysResume && (!log.called || log.left.Some?)
  {
    hide Run, LogOf;
    Logged(actions, s, t);
  }

  /** When reading is a fault: the memory of dead tasks is reused, and the event is of a dead thread, not its death. */
  lemma ReadFaultsIff(actions: seq<Action>, s: State, tr: TracerId, reused: bool)
    requires Run(INITIAL, actions, s) && tr in s.tracers && s.tracers[tr].queue != []
    ensures var e := s.tracers[tr].queue[0];
      Step(s, Read(tr, reused)) == Fault <==>
        reused && e.tag != TermThread && LogOf(INITIAL, actions, e.thread, NOTHING).left.Some?
  {
    hide Run, LogOf, Inv;
    InitialInv();
    RunInv(INITIAL, actions, s);
    StepSafe(s, Read(tr, reused));
    HeadThread(s, tr);
    Logged(actions, s, s.tracers[tr].queue[0].thread);
  }

  /** When closing is a fault: the memory of dead tasks is reused, and the tracer has a dead thread. */
  lemma ReleaseFaultsIff(actions: seq<Action>, s: State, tr: TracerId, reused: bool)
    requires Run(INITIAL, actions, s) && tr in s.tracers
    ensures Step(s, Release(tr, reused)) == Fault <==>
            reused && exists t :: IsThread(s.threads, tr, t) && LogOf(INITIAL, actions, t, NOTHING).left.Some?
  {
    hide Run, LogOf, Inv, Step;
    InitialInv();
    RunInv(INITIAL, actions, s);
    StepSafe(s, Release(tr, reused));
    forall t ensures LogOk(s, t, LogOf(INITIAL, actions, t, NOTHING)) { Logged(actions, s, t); }
    if t :| t in s.threads && s.threads[t].tracer == tr && s.threads[t].pc == Gone {
      assert IsThread(s.threads, tr, t) && LogOf(INITIAL, actions, t, NOTHING).left.Some?;
    }
  }

  // ---- Reports ----

  /**
    What a report says, over every run: the umpid is the one that the tracer
    gave the thread last, or -1; the id in a birth finds the thread, and its
    other number is the umpid of the thread that cloned it; the number in a
    death is how many threads of the tracer were left.
   */
  lemma ReportMeans(actions: seq<Action>, s: State, tr: TracerId)
    requires Run(INITIAL, actions, s) && tr in s.tracers && s.tracers[tr].queue != []
    ensures s.tracers[tr].queue[0].thread in s.threads
    ensures var e := s.tracers[tr].queue[0];
      var log := LogOf(INITIAL, actions, e.thread, NOTHING);
      match ReportOf(s, e)
      case Birth(kmpid, umppid) =>
        && e.tag == NewThread && Search(s, kmpid) == Some(e.thread)
        && umppid == if log.parent == None then -1 else LogOf(INITIAL, actions, log.parent.value, NOTHING).umpid
      case Death(umpid, remaining) => e.tag == TermThread && umpid == log.umpid && log.left == Some(remaining)
      case Call(umpid, _) => e.tag == SyscallEntry && umpid == log.umpid
      case Return(umpid) => e.tag == SyscallExit && umpid == log.umpid
  {
    hide Run, LogOf, Inv;
    var e := s.tracers[tr].queue[0];
    InitialInv();
    RunInv(INITIAL, actions, s);
    HeadThread(s, tr);
    SearchFinds(s, e.thread);
    Logged(actions, s, e.thread);
    if e.tag == NewThread {
      ReadReportsCloner(actions, s, tr);
      if e.cloner.Some? { Logged(actions, s, e.cloner.value); }
    }
  }

  lemma {:induction false} PoliteIsRun(s: State, actions: seq<Action>, s': State)
    requires PoliteRun(s, actions, s')
    ensures Run(s, actions, s')
    decreases |actions|
  {
    hide Step, Polite;
    if actions != [] {
      match Step(s, actions[0])
      case Blocked => PoliteIsRun(s, actions[1..], s');
      case Next(s1) => PoliteIsRun(s1, actions[1..], s');
    }
  }

  /** With replies that fit, the number in the report of a call is the one that the thread asked for. */
  lemma CallReportMeans(actions: seq<Action>, s: State, tr: TracerId)
    requires PoliteRun(INITIAL, actions, s) && tr in s.tracers && s.tracers[tr].queue != []
    requires s.tracers[tr].queue[0].tag == SyscallEntry
    ensures s.tracers[tr].queue[0].thread in s.threads
    ensures var e := s.tracers[tr].queue[0];
      var log := LogOf(INITIAL, actions, e.thread, NOTHING);
      log.asked.Some? && ReportOf(s, e) == Call(log.umpid, log.asked.value)
  {
    hide PoliteRun, Run, LogOf, Inv, Calls;
    PoliteIsRun(INITIAL, actions, s);
    var e := s.tracers[tr].queue[0];
    ReportMeans(actions, s, tr);
    Logged(actions, s, e.thread);
    Reached(actions, s, e.thread);
    InitialInv();
    RunInv(INITIAL, actions, s);
    HeadThread(s, tr);
    ReadTuned(s.threads[e.thread], s.tracers[tr].queue, e.thread);
  }

  /** Inside a call runs what the actions of the run make of it: the call asked for last, as it was answered. */
  lemma CallFollowsActions(actions: seq<Action>, s: State, t: Ref)
    requires PoliteRun(INITIAL, actions, s) && t in s.threads && s.threads[t].pc == InCall
    ensures var log := LogOf(INITIAL, actions, t, NOTHING);
      log.asked.Some? ==> s.threads[t].regs == Runs(log.asked.value, log.answer)
  {
    hide PoliteRun, Run, LogOf;
    PoliteIsRun(INITIAL, actions, s);
    Logged(actions, s, t);
    if s.threads[t].entered.Some? { CallFollowsAnswer(actions, s, t); }
  }

  // ---- Tracers apart ----

  /** The tracer that a step belongs to: the one that acts, or that of the thread that does. */
  function Side(s: State, a: Action): Option<TracerId> {
    match a
    case Open(tr) => Some(tr)
    case Attach(tr, _, _) => Some(tr)
    case Clone(p, _) => if p in s.threads then Some(s.threads[p].tracer) else None
    case Entry(t, _, _) => if t in s.threads then Some(s.threads[t].tracer) else None
    case Exit(t) => if t in s.threads then Some(s.threads[t].tracer) else None
    case Wake(t) => if t in s.threads then Some(s.threads[t].tracer) else None
    case Reap(t) => if t in s.threads then Some(s.threads[t].tracer) else None
    case Read(tr, _) => Some(tr)
    case SetUmpid(tr, _, _) => Some(tr)
    case Answer(tr, _, _) => Some(tr)
    case Release(tr, _) => Some(tr)
  }

  /** The threads, the count and the queue of a tracer are as they were, and it has no other thread. */
  ghost predicate Untouched(s: State, s': State, tr: TracerId) {
    && tr in s.tracers && tr in s'.tracers && s'.tracers[tr] == s.tracers[tr]
    && (forall t :: t in s.threads && s.threads[t].tracer == tr ==> t in s'.threads && s'.threads[t] == s.threads[t])
    && (forall t :: t in s'.threads && s'.threads[t].tracer == tr ==> t in s.threads && s.threads[t].tracer == tr)
  }

  /** Only thread t and the entry of its tracer change. */
  lemma ThreadApart(s: State, s': State, t: Ref, tr: TracerId)
    requires t in s.threads && t in s'.threads && s'.threads == s.threads[t := s'.threads[t]]
    requires s.threads[t].tracer in s.tracers && s'.threads[t].tracer == s.threads[t].tracer != tr && tr in s.tracers
    requires s.threads[t].tracer in s'.tracers
    requires s'.tracers == s.tracers[s.threads[t].tracer := s'.tracers[s.threads[t].tracer]]
    ensures Untouched(s, s', tr)
  {}

  lemma BirthApart(s: State, me: TracerId, scno: int, regs: int, arg: int, cloner: Option<Ref>, tr: TracerId)
    requires Inv(s) && me in s.tracers && tr in s.tracers && me != tr
    ensures Untouched(s, AddThread(s, me, scno, regs, arg, cloner), tr)
  {
    hide Inv;
    InvBelow(s);
  }

  lemma ReadApart(s: State, me: TracerId, tr: TracerId)
    requires Inv(s) && me in s.tracers && s.tracers[me].queue != [] && tr in s.tracers && me != tr
    requires DoRead(s, me).Next?
    ensures Untouched(s, DoRead(s, me).s, tr)
  {
    hide Inv;
    HeadThread(s, me);
  }

  lemma ReleaseApart(s: State, me: TracerId, tr: TracerId)
    requires Inv(s) && me in s.tracers && tr in s.tracers && me != tr
    ensures Step(s, Release(me, false)).Next? && Untouched(s, Step(s, Release(me, false)).s, tr)
  {
    hide Inv, Sweep, Named;
    InvNamed(s);
    SweepNamed(s, me, s.ids.n);
  }

  lemma OpenApart(s: State, me: TracerId, tr: TracerId)
    requires tr in s.tracers && me != tr
    ensures Untouched(s, s.(tracers := s.tracers[me := Tracer(0, [])]), tr)
  {}

  lemma SameApart(s: State, tr: TracerId)
    requires tr in s.tracers
    ensures Untouched(s, s, tr)
  {}

  /** A step reaches nothing of any other tracer. */
  lemma TracersApart(s: State, a: Action, s': State, tr: TracerId)
    requires Inv(s) && Step(s, a) == Next(s') && tr in s.tracers && Side(s, a) != Some(tr)
    ensures Untouched(s, s', tr)
  {
    hide Inv, Sweep, Untouched, AddThread, DoRead;
    match a
    case Open(_) => OpenApart(s, a.tr, tr);
    case Attach(me, scno, regs) => BirthApart(s, me, scno, regs, -1, None, tr);
    case Clone(p, scno) =>
      BirthApart(s, s.threads[p].tracer, scno, s.threads[p].regs, s.threads[p].kmpid, Some(p), tr);
    case Entry(t, _, _) => ThreadApart(s, s', t, tr);
    case Exit(t) => ThreadApart(s, s', t, tr);
    case Wake(t) => ThreadTracer(s, t); ThreadApart(s, s', t, tr);
    case Reap(t) => ThreadApart(s, s', t, tr);
    case Read(me, _) => ReadApart(s, me, tr);
    case SetUmpid(me, kmpid, _) =>
      var t := Target(s, me, kmpid);
      if t.Some? { ThreadApart(s, s', t.value, tr); } else { SameApart(s, tr); }
    case Answer(me, kmpid, _) =>
      var t := Target(s, me, kmpid);
      if t.Some? { ThreadApart(s, s', t.value, tr); } else { SameApart(s, tr); }
    case Release(me, _) => ReleaseApart(s, me, tr);
  }
}
