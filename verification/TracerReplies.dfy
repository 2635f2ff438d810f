/**
  The reply discipline of the kmview protocol: when tracers answer each event
  of a call once, with a reply that fits it, exit events, skipped calls and
  restored call numbers follow the answers exactly.
 */
module TracerReplies {
  import opened Tracer
  import opened Wrappers
  import opened TracerSafety

  predicate IsCall(e: Event, t: Ref) {
    e.thread == t && (e.tag == SyscallEntry || e.tag == SyscallExit)
  }

  function CallOf(e: Event, t: Ref): seq<Tag> {
    if IsCall(e, t) then [e.tag] else []
  }

  /** The call events of a thread that a queue holds. */
  function Calls(q: seq<Event>, t: Ref): seq<Tag> {
    if q == [] then [] else CallOf(q[0], t) + Calls(q[1..], t)
  }

  function Waiting(p: Pending): seq<Tag> {
    if p.Queued? then [p.tag] else []
  }

  /** The reply answers the event that was delivered. */
  predicate Fits(p: Pending, reply: Reply) {
    if reply == SysReturn then p == Delivered(SyscallExit) else p == Delivered(SyscallEntry)
  }

  predicate Polite(s: State, a: Action) {
    a.Answer? ==>
      var t := Target(s, a.tr, a.kmpid);
      t.Some? ==> Fits(s.threads[t.value].pending, a.reply)
  }

  /** The flags and registers of a thread follow from how its current call was answered. */
  predicate Obeys(th: Thread) {
    && th.answer != Some(SysReturn)
    && th.skipExit == !(th.answer.Some? && th.answer.value.SysModified?)
    && th.skipCall == (th.answer == Some(SysVirtualized))
    && (th.answer.Some? ==> th.entered.Some?)
    && (th.entered.Some? ==> th.scno == th.entered.value && th.regs == Runs(th.entered.value, th.answer))
  }

  /** The call that an answer lets run in place of the one the thread asked for. */
  function Runs(asked: int, answer: Option<Reply>): int {
    match answer
    case Some(SysVirtualized) => -1
    case Some(SysModified(n)) => n
    case Some(SysArgMod(n)) => n
    case _ => asked
  }

  predicate Calm(th: Thread) {
    match th.pc
    case User => th.pending == NoEvent && th.kmstop == 0
    case AtEntry =>
      if th.pending == Replied then th.kmstop == 1 && th.answer.Some? && Obeys(th)
      else
        && th.saved && th.kmstop == 0 && th.answer == None && th.entered == Some(th.scno) && th.regs == th.scno
        && (th.pending == Queued(SyscallEntry) || th.pending == Delivered(SyscallEntry))
    case InCall => th.pending == NoEvent && th.kmstop == 0 && Obeys(th)
    case AtExit =>
      && th.saved && th.answer.Some? && th.answer.value.SysModified?
      && (if th.pending == Replied then th.kmstop == 1
          else th.kmstop == 0 && (th.pending == Queued(SyscallExit) || th.pending == Delivered(SyscallExit)))
    case Gone => th.pending == NoEvent && th.kmstop == 0
  }

  /** A thread is where its flags say, and its queue holds its event exactly when it waits for one. */
  predicate Tuned(th: Thread, q: seq<Event>, t: Ref) {
    Calm(th) && Calls(q, t) == Waiting(th.pending)
  }

  ghost predicate AllTuned(s: State) {
    forall t :: t in s.threads ==>
      s.threads[t].tracer in s.tracers && Tuned(s.threads[t], s.tracers[s.threads[t].tracer].queue, t)
  }

  ghost predicate Disciplined(s: State) {
    Inv(s) && AllTuned(s)
  }

  lemma {:induction false} CallsAppend(q: seq<Event>, e: Event, t: Ref)
    ensures Calls(q + [e], t) == Calls(q, t) + CallOf(e, t)
  {
    if q == [] {
      assert q + [e] == [e];
    } else {
      assert (q + [e])[1..] == q[1..] + [e];
      CallsAppend(q[1..], e, t);
    }
  }

  lemma {:induction false} CallsNone(q: seq<Event>, t: Ref)
    requires forall i :: 0 <= i < |q| ==> q[i].thread != t
    ensures Calls(q, t) == []
  {
    if q != [] { CallsNone(q[1..], t); }
  }

  lemma AllTunedAt(s: State, t: Ref)
    requires AllTuned(s) && t in s.threads
    ensures s.threads[t].tracer in s.tracers && Tuned(s.threads[t], s.tracers[s.threads[t].tracer].queue, t)
  {}

  /** Only thread t changes, within its tracer; the queues stay. */
  lemma TunedUpdate(s: State, t: Ref, th: Thread)
    requires AllTuned(s) && t in s.threads && th.tracer == s.threads[t].tracer
    requires Calm(th) && Waiting(th.pending) == Waiting(s.threads[t].pending)
    ensures AllTuned(SetThread(s, t, th))
  {
    hide Calm, Calls;
  }

  /** Thread t changes and queues one event. */
  lemma TunedEnqueue(s: State, t: Ref, th: Thread, e: Event)
    requires AllTuned(s) && t in s.threads && th.tracer == s.threads[t].tracer && th.tracer in s.tracers
    requires e.thread == t
    requires Calm(th) && Waiting(th.pending) == Waiting(s.threads[t].pending) + CallOf(e, t)
    ensures AllTuned(Enqueue(SetThread(s, t, th), th.tracer, e))
  {
    hide Calm, Calls;
    var s' := Enqueue(SetThread(s, t, th), th.tracer, e);
    forall u | u in s'.threads
      ensures s'.threads[u].tracer in s'.tracers && Tuned(s'.threads[u], s'.tracers[s'.threads[u].tracer].queue, u)
    {
      AllTunedAt(s, u);
      CallsAppend(s.tracers[th.tracer].queue, e, u);
    }
  }

  /** Counting does not touch the queues. */
  lemma TunedCount(s: State, tr: TracerId, delta: int)
    requires AllTuned(s) && tr in s.tracers
    ensures AllTuned(Count(s, tr, delta))
  {
    hide Calm, Calls;
  }

  /** Reading the first event of the queue of a thread: it waited for it, or the event is not about its call. */
  lemma ReadTuned(th: Thread, q: seq<Event>, t: Ref)
    requires Tuned(th, q, t) && q != []
    ensures IsCall(q[0], t) ==> th.pending == Queued(q[0].tag) && Tuned(th.(pending := Delivered(q[0].tag)), q[1..], t)
    ensures !IsCall(q[0], t) ==> Tuned(th, q[1..], t)
  {
    if IsCall(q[0], t) {
      assert Calls(q, t)[0] == q[0].tag;
      assert |Calls(q, t)| == 1 + |Calls(q[1..], t)|;
    } else {
      assert Calls(q, t) == Calls(q[1..], t);
    }
  }

  lemma ReadDisciplined(s: State, tr: TracerId)
    requires Disciplined(s) && tr in s.tracers && s.tracers[tr].queue != []
    ensures DoRead(s, tr).Next? && Disciplined(DoRead(s, tr).s)
  {
    hide Inv, Calm, Calls, Tuned;
    ReadInv(s, tr);
    HeadThread(s, tr);
    var s' := DoRead(s, tr).s;
    var q := s.tracers[tr].queue;
    forall u | u in s'.threads
      ensures s'.threads[u].tracer in s'.tracers && Tuned(s'.threads[u], s'.tracers[s'.threads[u].tracer].queue, u)
    {
      AllTunedAt(s, u);
      if s.threads[u].tracer == tr {
        ReadTuned(s.threads[u], q, u);
        TunedAnnounced(s.threads[u], q[1..], u);
      }
    }
  }

  lemma TunedAnnounced(th: Thread, q: seq<Event>, t: Ref)
    ensures Tuned(th.(announced := true), q, t) == Tuned(th, q, t)
  {}

  /** No event is about a thread that does not exist yet. */
  lemma FreshCalls(s: State, tr: TracerId)
    requires Inv(s) && tr in s.tracers
    ensures s.next !in s.threads
    ensures Calls(s.tracers[tr].queue, s.next) == []
  {
    var q := s.tracers[tr].queue;
    forall i | 0 <= i < |q| ensures q[i].thread != s.next {
      EventReliable(s, tr, i);
    }
    CallsNone(q, s.next);
  }

  lemma BirthTuned(s: State, tr: TracerId, scno: int, regs: int, arg: int, cloner: Option<Ref>)
    requires Disciplined(s) && tr in s.tracers
    ensures AllTuned(AddThread(s, tr, scno, regs, arg, cloner))
  {
    hide Inv, Calm, Calls;
    var s' := AddThread(s, tr, scno, regs, arg, cloner);
    var q := s.tracers[tr].queue;
    FreshCalls(s, tr);
    forall u | u in s'.threads
      ensures s'.threads[u].tracer in s'.tracers && Tuned(s'.threads[u], s'.tracers[s'.threads[u].tracer].queue, u)
    {
      CallsAppend(q, Event(NewThread, s.next, arg, cloner), u);
      if u == s.next {
        BornCalm(tr, s'.threads[u].kmpid, scno, regs);
      } else {
        AllTunedAt(s, u);
      }
    }
  }

  lemma BornCalm(tr: TracerId, kmpid: nat, scno: int, regs: int)
    ensures Calm(Born(tr, kmpid, scno, regs))
  {}

  lemma ReapTuned(s: State, t: Ref)
    requires AllTuned(s) && t in s.threads && (s.threads[t].pc == User || s.threads[t].pc == InCall)
    ensures s.threads[t].tracer in s.tracers && AllTuned(DoReap(s, t))
  {
    hide AllTuned;
    AllTunedAt(s, t);
    var th := s.threads[t].(pc := Gone);
    var s1 := Count(SetThread(s, t, th), th.tracer, -1);
    TunedCount(s, th.tracer, -1);
    TunedEnqueue(Count(s, th.tracer, -1), t, th, Event(TermThread, t, s1.tracers[th.tracer].ntraced, None));
    assert DoReap(s, t) == Enqueue(SetThread(Count(s, th.tracer, -1), t, th), th.tracer,
                                   Event(TermThread, t, s1.tracers[th.tracer].ntraced, None));
  }

  lemma EntryTuned(s: State, t: Ref, number: int, deliver: bool)
    requires AllTuned(s) && t in s.threads && s.threads[t].pc == User
    ensures s.threads[t].tracer in s.tracers && AllTuned(DoEntry(s, t, number, deliver))
  {
    hide AllTuned;
    AllTunedAt(s, t);
    var th := s.threads[t].(scno := number, regs := number, entered := Some(number), answer := None);
    if deliver {
      TunedEnqueue(s, t, th.(saved := true, pc := AtEntry, pending := Queued(SyscallEntry)),
                   Event(SyscallEntry, t, 0, None));
    } else {
      TunedUpdate(s, t, th.(pc := InCall, skipExit := true, skipCall := false));
    }
  }

  lemma ExitTuned(s: State, t: Ref)
    requires AllTuned(s) && t in s.threads && s.threads[t].pc == InCall
    ensures s.threads[t].tracer in s.tracers && AllTuned(DoExit(s, t))
  {
    hide AllTuned;
    AllTunedAt(s, t);
    var th := s.threads[t];
    var th1 := th.(saved := true, regs := if th.skipCall then th.scno else th.regs);
    if th.skipExit {
      TunedUpdate(s, t, th1.(pc := User));
    } else {
      TunedEnqueue(s, t, th1.(pc := AtExit, pending := Queued(SyscallExit)), Event(SyscallExit, t, 0, None));
    }
  }

  lemma ReleaseTuned(s: State, tr: TracerId)
    requires Disciplined(s) && tr in s.tracers
    ensures Step(s, Release(tr, false)).Next? && AllTuned(Step(s, Release(tr, false)).s)
  {
    hide Sweep, Tuned, Inv, Named;
    InvNamed(s);
    SweepNamed(s, tr, s.ids.n);
    ReleaseInv(s, tr);
    var s' := Step(s, Release(tr, false)).s;
    forall u | u in s'.threads
      ensures s'.threads[u].tracer in s'.tracers && Tuned(s'.threads[u], s'.tracers[s'.threads[u].tracer].queue, u)
    {
      AllTunedAt(s, u);
    }
  }

  /** Every step keeps the discipline as long as replies fit the events they answer. */
  lemma StepDisciplined(s: State, a: Action)
    requires Disciplined(s) && Polite(s, a)
    ensures Step(s, a).Next? ==> Disciplined(Step(s, a).s)
  {
    hide Inv, AllTuned, DoRead, DoEntry, DoExit, DoReap, AddThread, Sweep, SetThread;
    StepSafe(s, a);
    if Step(s, a).Next? {
      match a
      case Open(tr) => OpenTuned(s, tr);
      case Attach(tr, scno, regs) => BirthTuned(s, tr, scno, regs, -1, None);
      case Clone(p, scno) =>
        BirthTuned(s, s.threads[p].tracer, scno, s.threads[p].regs, s.threads[p].kmpid, Some(p));
      case Entry(t, number, deliver) => EntryTuned(s, t, number, deliver);
      case Exit(t) => ExitTuned(s, t);
      case Wake(t) => AllTunedAt(s, t); TunedUpdate(s, t, Woken(s.threads[t]));
      case Reap(t) => ReapTuned(s, t);
      case Read(tr, _) => ReadDisciplined(s, tr);
      case SetUmpid(tr, kmpid, umpid) =>
        var t := Target(s, tr, kmpid);
        if t.Some? { AllTunedAt(s, t.value); TunedUpdate(s, t.value, s.threads[t.value].(umpid := umpid)); }
      case Answer(tr, kmpid, reply) =>
        var t := Target(s, tr, kmpid);
        if t.Some? { AllTunedAt(s, t.value); TunedUpdate(s, t.value, Answered(s.threads[t.value], reply)); }
      case Release(tr, _) => ReleaseTuned(s, tr);
    }
  }

  lemma OpenTuned(s: State, tr: TracerId)
    requires AllTuned(s) && tr !in s.tracers
    ensures AllTuned(s.(tracers := s.tracers[tr := Tracer(0, [])]))
  {
    hide Tuned;
  }

  // ---- Runs in which every reply fits ----

  ghost predicate PoliteRun(s: State, actions: seq<Action>, s': State)
    decreases |actions|
  {
    if actions == [] then s' == s else
      && Polite(s, actions[0])
      && match Step(s, actions[0])
         case Blocked => PoliteRun(s, actions[1..], s')
         case Fault => false
         case Next(s1) => PoliteRun(s1, actions[1..], s')
  }

  /** A NEWTHREAD event is read after its thread died. */
  predicate LateNews(s: State, a: Action) {
    && a.Read? && a.reused && a.tr in s.tracers && s.tracers[a.tr].queue != []
    && s.tracers[a.tr].queue[0].tag == NewThread && DeadHead(s, a.tr)
  }

  predicate LateRelease(s: State, a: Action) {
    a.Release? && a.reused && a.tr in s.tracers && DeadThread(s, a.tr)
  }

  /** A dead thread has no event of a call in its queue. */
  lemma DeadHasNoCall(s: State, tr: TracerId)
    requires Disciplined(s) && tr in s.tracers && s.tracers[tr].queue != [] && DeadHead(s, tr)
    ensures s.tracers[tr].queue[0].tag == NewThread
  {
    hide Inv, AllTuned;
    HeadThread(s, tr);
    var e := s.tracers[tr].queue[0];
    AllTunedAt(s, e.thread);
  }

  /**
    With replies that fit, no reply is written to registers that are not there
    and no event of a call is read from them: what is left to fault are
    negative ids and the tasks of dead threads, used for a NEWTHREAD event or
    when the tracer is closed.
   */
  lemma PoliteFaults(s: State, a: Action)
    requires Disciplined(s) && Polite(s, a)
    ensures Step(s, a) == Fault <==> WildSearch(s, a) || LateNews(s, a) || LateRelease(s, a)
  {
    hide Inv, AllTuned, Step, Calls;
    StepSafe(s, a);
    if a.Answer? {
      var t := Target(s, a.tr, a.kmpid);
      if t.Some? { AllTunedAt(s, t.value); }
    } else if a.Read? && a.tr in s.tracers && s.tracers[a.tr].queue != [] && DeadHead(s, a.tr) {
      DeadHasNoCall(s, a.tr);
    }
  }

  /** Replies fit, no id is negative, and dead tasks are not used once their memory is. */
  predicate Proper(s: State, actions: seq<Action>)
    decreases |actions|
  {
    actions == [] ||
    (&& Polite(s, actions[0]) && !WildSearch(s, actions[0]) && !LateNews(s, actions[0]) && !LateRelease(s, actions[0])
     && Proper(if Step(s, actions[0]).Next? then Step(s, actions[0]).s else s, actions[1..]))
  }

  /** Such a sequence of actions never faults. */
  lemma {:induction false} PoliteRunSafe(s: State, actions: seq<Action>) returns (s': State)
    requires Disciplined(s) && Proper(s, actions)
    ensures PoliteRun(s, actions, s') && Disciplined(s')
    decreases |actions|
  {
    hide Disciplined, Step, Polite, WildSearch, LateNews, LateRelease;
    if actions == [] {
      s' := s;
    } else {
      PoliteFaults(s, actions[0]);
      StepDisciplined(s, actions[0]);
      s' := PoliteRunSafe(if Step(s, actions[0]).Next? then Step(s, actions[0]).s else s, actions[1..]);
    }
  }

  lemma {:induction false} RunDisciplined(s: State, actions: seq<Action>, s': State)
    requires Disciplined(s) && PoliteRun(s, actions, s')
    ensures Disciplined(s')
    decreases |actions|
  {
    hide Disciplined, Step, Polite;
    if actions != [] {
      StepDisciplined(s, actions[0]);
      match Step(s, actions[0])
      case Blocked => RunDisciplined(s, actions[1..], s');
      case Next(s1) => RunDisciplined(s1, actions[1..], s');
    }
  }

  lemma Reached(actions: seq<Action>, s: State, t: Ref)
    requires PoliteRun(INITIAL, actions, s) && t in s.threads
    ensures s.threads[t].tracer in s.tracers && Tuned(s.threads[t], s.tracers[s.threads[t].tracer].queue, t)
  {
    hide PoliteRun, Inv, Tuned;
    InitialInv();
    RunDisciplined(INITIAL, actions, s);
    AllTunedAt(s, t);
  }

  /**
    Inside a call runs what the answer says: the call asked for when it was not
    delivered or resumed, the one the tracer put in its place when modified,
    and none when virtualized.
   */
  lemma CallFollowsAnswer(actions: seq<Action>, s: State, t: Ref)
    requires PoliteRun(INITIAL, actions, s) && t in s.threads && s.threads[t].pc == InCall && s.threads[t].entered.Some?
    ensures s.threads[t].regs == Runs(s.threads[t].entered.value, s.threads[t].answer)
  {
    hide PoliteRun;
    Reached(actions, s, t);
  }

  /**
    At the end of a call an exit event is queued, and the thread stops, exactly
    when the call was answered SYSMODIFIED; the number of the call the thread
    asked for is put back exactly when it was answered SYSVIRTUALIZED.
   */
  lemma ExitFollowsAnswer(actions: seq<Action>, s: State, t: Ref)
    requires PoliteRun(INITIAL, actions, s) && t in s.threads && s.threads[t].pc == InCall
    ensures s.threads[t].tracer in s.tracers
    ensures
      var th := s.threads[t];
      var q := s.tracers[th.tracer].queue;
      var modified := th.answer.Some? && th.answer.value.SysModified?;
      var s' := DoExit(s, t);
      && s'.tracers[th.tracer].queue == (if modified then q + [Event(SyscallExit, t, 0, None)] else q)
      && s'.threads[t].pc == (if modified then AtExit else User)
      && (if th.answer == Some(SysVirtualized)
          then th.regs == -1 && th.entered == Some(s'.threads[t].regs)
          else s'.threads[t].regs == th.regs)
  {
    hide PoliteRun;
    Reached(actions, s, t);
  }

  /**
    A thread has at most one event of a call that is queued or unanswered, it
    has one exactly while it is stopped without an answer, and its semaphore
    never counts more than the one answer it waits for.
   */
  lemma OneOutstanding(actions: seq<Action>, s: State, t: Ref)
    requires PoliteRun(INITIAL, actions, s) && t in s.threads
    ensures s.threads[t].tracer in s.tracers
    ensures
      var th := s.threads[t];
      var unanswered := |Calls(s.tracers[th.tracer].queue, t)| + if th.pending.Delivered? then 1 else 0;
      var stopped := th.pc == AtEntry || th.pc == AtExit;
      && unanswered <= 1 && th.kmstop <= 1
      && unanswered + th.kmstop == (if stopped then 1 else 0)
  {
    hide PoliteRun;
    Reached(actions, s, t);
  }

  // ---- The life of a call ----

  /** A call that is let through runs as asked and ends without a word to the tracer. */
  lemma LetThrough(s: State, t: Ref, number: int)
    requires Disciplined(s) && t in s.threads && s.threads[t].pc == User
    ensures var o1 := Step(s, Entry(t, number, false));
      && o1.Next? && t in o1.s.threads && o1.s.tracers == s.tracers
      && o1.s.threads[t].pc == InCall && o1.s.threads[t].regs == number
      && var o2 := Step(o1.s, Exit(t));
         && o2.Next? && t in o2.s.threads && o2.s.tracers == s.tracers
         && o2.s.threads[t].pc == User && o2.s.threads[t].regs == number
  {
    hide Inv, AllTuned;
    AllTunedAt(s, t);
  }

  /** A call that is delivered is queued behind all other events of the tracer, and the thread stops. */
  lemma DeliveredStops(s: State, t: Ref, number: int)
    requires Disciplined(s) && t in s.threads && s.threads[t].pc == User
    ensures s.threads[t].tracer in s.tracers
    ensures var o, tr := Step(s, Entry(t, number, true)), s.threads[t].tracer;
      && o.Next? && t in o.s.threads && tr in o.s.tracers && o.s.threads[t].pc == AtEntry
      && o.s.tracers[tr].queue == s.tracers[tr].queue + [Event(SyscallEntry, t, 0, None)]
      && o.s.threads[t].entered == Some(number) && o.s.threads[t].regs == number
  {
    hide Inv, AllTuned;
    AllTunedAt(s, t);
  }

  /** A stopped thread does nothing but wait, and it wakes exactly when its event has been answered. */
  lemma StopsUntilAnswered(s: State, t: Ref, n: int, deliver: bool)
    requires Disciplined(s) && t in s.threads && (s.threads[t].pc == AtEntry || s.threads[t].pc == AtExit)
    ensures Step(s, Wake(t)) != Blocked <==> s.threads[t].pending == Replied
    ensures Step(s, Exit(t)) == Blocked && Step(s, Reap(t)) == Blocked
    ensures Step(s, Entry(t, n, deliver)) == Blocked && Step(s, Clone(t, n)) == Blocked
  {
    hide Inv, AllTuned, Calls, Obeys;
    AllTunedAt(s, t);
  }

  /**
    A call that has been answered runs, as the answer says, as soon as the
    thread wakes; at its end the tracer is told exactly when the answer was
    SYSMODIFIED, and otherwise the thread goes back to user code.
   */
  lemma AnsweredCallRuns(s: State, t: Ref)
    requires Disciplined(s) && t in s.threads && s.threads[t].pc == AtEntry && s.threads[t].pending == Replied
    ensures s.threads[t].tracer in s.tracers && s.threads[t].entered.Some? && s.threads[t].answer.Some?
    ensures var asked, answer := s.threads[t].entered.value, s.threads[t].answer.value;
      var o1 := Step(s, Wake(t));
      && o1.Next? && t in o1.s.threads && o1.s.tracers == s.tracers
      && o1.s.threads[t].pc == InCall && o1.s.threads[t].regs == Runs(asked, Some(answer))
      && var o2 := Step(o1.s, Exit(t));
         && o2.Next? && t in o2.s.threads && Told(s, o2.s, t, answer.SysModified?)
         && o2.s.threads[t].pc == (if answer.SysModified? then AtExit else User)
         && o2.s.threads[t].regs == if answer.SysVirtualized? then asked else Runs(asked, Some(answer))
  {
    hide Inv, AllTuned;
    AllTunedAt(s, t);
  }

  /** The queue of the tracer of t has grown by the exit event of t if exits, and else stayed. */
  predicate Told(s: State, s': State, t: Ref, exits: bool)
    requires t in s.threads && s.threads[t].tracer in s.tracers
  {
    var tr := s.threads[t].tracer;
    && s'.tracers.Keys == s.tracers.Keys
    && s'.tracers[tr].queue == s.tracers[tr].queue + if exits then [Event(SyscallExit, t, 0, None)] else []
  }

  /** After the answer to its exit event a thread goes back to user code, with what the answer left in its registers. */
  lemma AnsweredExitReturns(s: State, t: Ref)
    requires Disciplined(s) && t in s.threads && s.threads[t].pc == AtExit && s.threads[t].pending == Replied
    ensures var o := Step(s, Wake(t));
      && o.Next? && t in o.s.threads && o.s.tracers == s.tracers
      && o.s.threads[t].pc == User && o.s.threads[t].regs == s.threads[t].regs
  {
    hide Inv, AllTuned;
    AllTunedAt(s, t);
  }

  /**
    The discipline needs the replies to fit: an answer to a thread keeps
    it, without a fault, exactly when it fits the event delivered last, or is
    SYSMODIFIED at an exit, which clears the flags as SYSRETURN does.
   */
  lemma AnswerKeepsIff(s: State, tr: TracerId, kmpid: int, reply: Reply, t: Ref)
    requires Disciplined(s) && tr in s.tracers && Target(s, tr, kmpid) == Some(t)
    ensures Step(s, Answer(tr, kmpid, reply)).Next? && Disciplined(Step(s, Answer(tr, kmpid, reply)).s) <==>
            Fits(s.threads[t].pending, reply) || (s.threads[t].pending == Delivered(SyscallExit) && reply.SysModified?)
  {
    hide Inv, AllTuned, SetThread;
    StepSafe(s, Answer(tr, kmpid, reply));
    var th := Answered(s.threads[t], reply);
    AllTunedAt(s, t);
    SetThreadAt(s, t, th);
    if Fits(s.threads[t].pending, reply) || (s.threads[t].pending == Delivered(SyscallExit) && reply.SysModified?) {
      TunedUpdate(s, t, th);
    } else if Step(s, Answer(tr, kmpid, reply)).Next? && AllTuned(SetThread(s, t, th)) {
      AllTunedAt(SetThread(s, t, th), t);
      assert false;
    }
  }

  /** A reply that does not fit: SYSRETURN to an entry lets the call run as asked and brings its exit event. */
  lemma ReturnAtEntry(s: State, tr: TracerId, kmpid: int, t: Ref)
    requires Disciplined(s) && tr in s.tracers && Target(s, tr, kmpid) == Some(t)
    requires s.threads[t].pending == Delivered(SyscallEntry)
    ensures s.threads[t].tracer in s.tracers && s.threads[t].entered.Some?
    ensures var o1 := Step(s, Answer(tr, kmpid, SysReturn));
      && o1.Next?
      && var o2 := Step(o1.s, Wake(t));
         && o2.Next?
         && var o3 := Step(o2.s, Exit(t));
            && o3.Next? && t in o3.s.threads && Told(s, o3.s, t, true)
            && o3.s.threads[t].pc == AtExit && o3.s.threads[t].regs == s.threads[t].entered.value
  {
    hide Inv, AllTuned, Calls;
    StepSafe(s, Answer(tr, kmpid, SysReturn));
    AllTunedAt(s, t);
  }

  lemma SetThreadAt(s: State, t: Ref, th: Thread)
    ensures t in SetThread(s, t, th).threads && SetThread(s, t, th).threads[t] == th
    ensures SetThread(s, t, th).tracers == s.tracers
  {}
}
