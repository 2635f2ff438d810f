/**
  What every reachable state of the kmview protocol satisfies, whatever the
  tracers answer: no event outlives its thread, a NEWTHREAD event still names
  the thread that cloned, and no step touches a freed structure.
 */
module TracerSafety {
  import opened Tracer
  import opened Wrappers
  import Id = KmpidSpec

  /** Ids and threads name each other, and no thread is still to be allocated. */
  ghost predicate Named(s: State) {
    && Id.Good(s.ids)
    && (forall id :: id in s.ids.live ==> s.ids.live[id] in s.threads && s.threads[s.ids.live[id]].kmpid == id)
    && (forall t :: t in s.threads ==>
          t < s.next && s.threads[t].kmpid in s.ids.live && s.ids.live[s.threads[t].kmpid] == t)
  }

  function Announced(m: map<Ref, Thread>, tr: TracerId): set<Ref> {
    set t | t in m && m[t].tracer == tr && m[t].announced
  }

  function Traced(m: map<Ref, Thread>, tr: TracerId): set<Ref> {
    set t | t in m && m[t].tracer == tr && m[t].pc != Gone
  }

  function Dying(q: seq<Event>): set<Ref> {
    set i | 0 <= i < |q| && q[i].tag == TermThread :: q[i].thread
  }

  function Rising(q: seq<Event>): set<Ref> {
    set i | 0 <= i < |q| && q[i].tag == NewThread :: q[i].thread
  }

  predicate IsThread(m: map<Ref, Thread>, tr: TracerId, t: Ref) {
    t in m && m[t].tracer == tr
  }

  /**
    An event that may be read after the threads in dead have been freed and
    those in known have been announced: it names an existing thread, announced
    before and not dead yet; a NEWTHREAD is about an unknown thread, and the id
    it holds is that of the cloner, which is known and not dead.
   */
  predicate EventOk(m: map<Ref, Thread>, tr: TracerId, e: Event, dead: set<Ref>, known: set<Ref>) {
    && IsThread(m, tr, e.thread)
    && e.thread !in dead
    && (e.tag != NewThread <==> e.thread in known)
    && (e.tag == TermThread ==> m[e.thread].pc == Gone)
    && (e.tag == NewThread && e.cloner == None ==> e.arg == -1)
    && (e.tag == NewThread && e.cloner.Some? ==>
          var p := e.cloner.value;
          IsThread(m, tr, p) && m[p].kmpid == e.arg && p !in dead && p in known)
  }

  function Deaths(e: Event): set<Ref> {
    if e.tag == TermThread then {e.thread} else {}
  }

  function Births(e: Event): set<Ref> {
    if e.tag == NewThread then {e.thread} else {}
  }

  /** The events of a queue may be read in order. */
  ghost predicate QueueOk(m: map<Ref, Thread>, tr: TracerId, q: seq<Event>, dead: set<Ref>, known: set<Ref>)
    decreases |q|
  {
    q == [] ||
    (EventOk(m, tr, q[0], dead, known) && QueueOk(m, tr, q[1..], dead + Deaths(q[0]), known + Births(q[0])))
  }

  /** The queue of a tracer is in order and complete: it holds every unreported birth and death. */
  ghost predicate TracerOk(m: map<Ref, Thread>, tr: TracerId, x: Tracer) {
    && QueueOk(m, tr, x.queue, {}, Announced(m, tr))
    && (forall t :: IsThread(m, tr, t) ==>
          (m[t].pc == Gone <==> t in Dying(x.queue)) && (m[t].announced || t in Rising(x.queue)))
    && x.ntraced == |Traced(m, tr)|
  }

  ghost predicate Inv(s: State) {
    && Named(s)
    && (forall t :: t in s.threads ==> s.threads[t].tracer in s.tracers)
    && (forall tr :: tr in s.tracers ==> TracerOk(s.threads, tr, s.tracers[tr]))
  }

  // ---- Queues ----

  /** Only the tracer, the id and the death of a thread matter to a queue. */
  lemma {:induction false} QueueFrame(m: map<Ref, Thread>, m': map<Ref, Thread>, tr: TracerId, q: seq<Event>,
                                      dead: set<Ref>, known: set<Ref>)
    requires QueueOk(m, tr, q, dead, known)
    requires forall t :: IsThread(m, tr, t) ==>
               IsThread(m', tr, t) && m'[t].kmpid == m[t].kmpid && (m[t].pc == Gone ==> m'[t].pc == Gone)
    ensures QueueOk(m', tr, q, dead, known)
    decreases |q|
  {
    if q != [] {
      QueueFrame(m, m', tr, q[1..], dead + Deaths(q[0]), known + Births(q[0]));
    }
  }

  lemma {:induction false} QueueAppend(m: map<Ref, Thread>, tr: TracerId, q: seq<Event>, e: Event,
                                       dead: set<Ref>, known: set<Ref>)
    requires QueueOk(m, tr, q, dead, known)
    requires EventOk(m, tr, e, dead + Dying(q), known + Rising(q))
    ensures QueueOk(m, tr, q + [e], dead, known)
    decreases |q|
  {
    if q == [] {
      assert q + [e] == [e];
      assert dead + Dying(q) == dead && known + Rising(q) == known;
    } else {
      assert (q + [e])[1..] == q[1..] + [e];
      FirstOut(q);
      assert dead + Dying(q) == dead + Deaths(q[0]) + Dying(q[1..]);
      assert known + Rising(q) == known + Births(q[0]) + Rising(q[1..]);
      QueueAppend(m, tr, q[1..], e, dead + Deaths(q[0]), known + Births(q[0]));
    }
  }

  lemma FirstOut(q: seq<Event>)
    requires q != []
    ensures Dying(q) == Deaths(q[0]) + Dying(q[1..])
    ensures Rising(q) == Births(q[0]) + Rising(q[1..])
  {
    var r := q[1..];
    forall t | t in Dying(q) ensures t in Deaths(q[0]) + Dying(r) {
      var i :| 0 <= i < |q| && q[i].tag == TermThread && q[i].thread == t;
      if i > 0 { assert r[i - 1] == q[i]; }
    }
    forall t | t in Rising(q) ensures t in Births(q[0]) + Rising(r) {
      var i :| 0 <= i < |q| && q[i].tag == NewThread && q[i].thread == t;
      if i > 0 { assert r[i - 1] == q[i]; }
    }
    forall i | 0 <= i < |r| ensures r[i] == q[i + 1] {}
  }

  lemma LastIn(q: seq<Event>, e: Event)
    ensures Dying(q + [e]) == Dying(q) + Deaths(e)
    ensures Rising(q + [e]) == Rising(q) + Births(e)
  {
    var r := q + [e];
    assert r[|q|] == e;
    forall i | 0 <= i < |q| ensures r[i] == q[i] {}
  }

  /** No event after its death mentions a thread, so it can be freed. */
  lemma {:induction false} QueueForget(m: map<Ref, Thread>, tr: TracerId, q: seq<Event>, t: Ref,
                                       dead: set<Ref>, known: set<Ref>)
    requires QueueOk(m, tr, q, dead, known) && t in dead
    ensures QueueOk(m - {t}, tr, q, dead - {t}, known - {t})
    ensures t !in Dying(q) && t !in Rising(q)
    decreases |q|
  {
    if q != [] {
      var e := q[0];
      FirstOut(q);
      QueueForget(m, tr, q[1..], t, dead + Deaths(e), known + Births(e));
      assert dead + Deaths(e) - {t} == dead - {t} + Deaths(e);
      assert known + Births(e) - {t} == known - {t} + Births(e);
    }
  }

  /** A queue announces threads of the tracer that were not known before. */
  lemma {:induction false} QueueFresh(m: map<Ref, Thread>, tr: TracerId, q: seq<Event>, dead: set<Ref>, known: set<Ref>)
    requires QueueOk(m, tr, q, dead, known)
    ensures Rising(q) !! known
    ensures forall t :: t in Rising(q) || t in Dying(q) ==> IsThread(m, tr, t)
    decreases |q|
  {
    if q != [] {
      FirstOut(q);
      QueueFresh(m, tr, q[1..], dead + Deaths(q[0]), known + Births(q[0]));
    }
  }

  // ---- One tracer ----

  /** A tracer does not see what happens to the threads of the others. */
  lemma TracerOther(m: map<Ref, Thread>, m': map<Ref, Thread>, tr: TracerId, x: Tracer)
    requires TracerOk(m, tr, x)
    requires forall t :: IsThread(m, tr, t) ==> IsThread(m', tr, t) && m'[t] == m[t]
    requires forall t :: IsThread(m', tr, t) ==> IsThread(m, tr, t)
    ensures TracerOk(m', tr, x)
  {
    QueueFrame(m, m', tr, x.queue, {}, Announced(m, tr));
    assert Announced(m', tr) == Announced(m, tr) by {
      forall t ensures t in Announced(m', tr) <==> t in Announced(m, tr) {
        assert IsThread(m, tr, t) <==> IsThread(m', tr, t);
      }
    }
    assert Traced(m', tr) == Traced(m, tr) by {
      forall t ensures t in Traced(m', tr) <==> t in Traced(m, tr) {
        assert IsThread(m, tr, t) <==> IsThread(m', tr, t);
      }
    }
  }

  /** What may change in a thread without touching the queues. */
  predicate SameLife(th: Thread, th': Thread) {
    && th'.tracer == th.tracer && th'.kmpid == th.kmpid && th'.announced == th.announced
    && (th'.pc == Gone <==> th.pc == Gone)
  }

  lemma UpdateSets(m: map<Ref, Thread>, t: Ref, th: Thread, tr: TracerId)
    requires t in m && SameLife(m[t], th)
    ensures Announced(m[t := th], tr) == Announced(m, tr) && Traced(m[t := th], tr) == Traced(m, tr)
  {}

  lemma TracerUpdate(m: map<Ref, Thread>, t: Ref, th: Thread, tr: TracerId, x: Tracer)
    requires TracerOk(m, tr, x) && t in m && SameLife(m[t], th)
    ensures TracerOk(m[t := th], tr, x)
  {
    hide Dying, Rising, Announced, Traced, QueueOk;
    var m' := m[t := th];
    UpdateSets(m, t, th, tr);
    QueueFrame(m, m', tr, x.queue, {}, Announced(m, tr));
    forall u | IsThread(m', tr, u)
      ensures (m'[u].pc == Gone <==> u in Dying(x.queue)) && (m'[u].announced || u in Rising(x.queue))
    {
      assert IsThread(m, tr, u);
    }
  }

  /** Queueing an event of a call. */
  lemma TracerCall(m: map<Ref, Thread>, tr: TracerId, x: Tracer, e: Event)
    requires TracerOk(m, tr, x) && IsThread(m, tr, e.thread) && m[e.thread].pc != Gone
    requires e.tag == SyscallEntry || e.tag == SyscallExit
    ensures TracerOk(m, tr, x.(queue := x.queue + [e]))
  {
    LastIn(x.queue, e);
    assert e.thread !in Dying(x.queue);
    assert e.thread in Announced(m, tr) + Rising(x.queue);
    QueueAppend(m, tr, x.queue, e, {}, Announced(m, tr));
  }

  /** Every thread of a tracer has been announced or is in its queue. */
  lemma KnownOrRising(m: map<Ref, Thread>, tr: TracerId, x: Tracer, t: Ref)
    requires TracerOk(m, tr, x) && IsThread(m, tr, t)
    ensures t in Announced(m, tr) + Rising(x.queue)
    ensures m[t].pc == Gone <==> t in Dying(x.queue)
  {}

  /** The sets the queue is judged by, after a death. */
  lemma DeathSets(m: map<Ref, Thread>, tr: TracerId, t: Ref)
    requires IsThread(m, tr, t) && m[t].pc != Gone
    ensures Announced(m[t := m[t].(pc := Gone)], tr) == Announced(m, tr)
    ensures Traced(m[t := m[t].(pc := Gone)], tr) == Traced(m, tr) - {t} && t in Traced(m, tr)
  {}

  lemma ReapQueue(m: map<Ref, Thread>, tr: TracerId, x: Tracer, t: Ref, e: Event)
    requires TracerOk(m, tr, x) && IsThread(m, tr, t) && m[t].pc != Gone && e.tag == TermThread && e.thread == t
    ensures var m' := m[t := m[t].(pc := Gone)]; QueueOk(m', tr, x.queue + [e], {}, Announced(m', tr))
  {
    hide Dying, Rising, Announced, Traced, QueueOk;
    var m' := m[t := m[t].(pc := Gone)];
    DeathSets(m, tr, t);
    QueueFrame(m, m', tr, x.queue, {}, Announced(m, tr));
    KnownOrRising(m, tr, x, t);
    QueueAppend(m', tr, x.queue, e, {}, Announced(m', tr));
  }

  lemma TracerReap(m: map<Ref, Thread>, tr: TracerId, x: Tracer, t: Ref)
    requires TracerOk(m, tr, x) && IsThread(m, tr, t) && m[t].pc != Gone
    ensures TracerOk(m[t := m[t].(pc := Gone)], tr,
                     Tracer(x.ntraced - 1, x.queue + [Event(TermThread, t, x.ntraced - 1, None)]))
  {
    hide Dying, Rising, Announced, Traced, QueueOk;
    var m' := m[t := m[t].(pc := Gone)];
    var e := Event(TermThread, t, x.ntraced - 1, None);
    ReapQueue(m, tr, x, t, e);
    DeathSets(m, tr, t);
    LastIn(x.queue, e);
    forall u | IsThread(m', tr, u)
      ensures (m'[u].pc == Gone <==> u in Dying(x.queue + [e])) && (m'[u].announced || u in Rising(x.queue + [e]))
    {
      assert IsThread(m, tr, u);
    }
  }

  lemma BirthSets(m: map<Ref, Thread>, tr: TracerId, t: Ref, th: Thread)
    requires t !in m && th.tracer == tr && th.pc != Gone && !th.announced
    ensures Announced(m[t := th], tr) == Announced(m, tr)
    ensures Traced(m[t := th], tr) == Traced(m, tr) + {t} && t !in Traced(m, tr)
    ensures t !in Announced(m, tr)
  {}

  lemma BirthQueue(m: map<Ref, Thread>, tr: TracerId, x: Tracer, t: Ref, th: Thread, e: Event)
    requires TracerOk(m, tr, x) && t !in m && th.tracer == tr && th.pc != Gone && !th.announced
    requires e.tag == NewThread && e.thread == t && (e.cloner == None ==> e.arg == -1)
    requires e.cloner.Some? ==>
               IsThread(m, tr, e.cloner.value) && m[e.cloner.value].kmpid == e.arg && m[e.cloner.value].pc != Gone
    ensures QueueOk(m[t := th], tr, x.queue + [e], {}, Announced(m[t := th], tr))
    ensures t !in Dying(x.queue)
  {
    hide Dying, Rising, Announced, Traced, QueueOk;
    var m' := m[t := th];
    QueueFresh(m, tr, x.queue, {}, Announced(m, tr));
    QueueFrame(m, m', tr, x.queue, {}, Announced(m, tr));
    BirthSets(m, tr, t, th);
    assert !IsThread(m, tr, t);
    if e.cloner.Some? {
      KnownOrRising(m, tr, x, e.cloner.value);
    }
    QueueAppend(m', tr, x.queue, e, {}, Announced(m', tr));
  }

  /** A new thread of the tracer, with the event that announces it and its cloner, if any. */
  lemma TracerBirth(m: map<Ref, Thread>, tr: TracerId, x: Tracer, t: Ref, th: Thread, e: Event)
    requires TracerOk(m, tr, x) && t !in m && th.tracer == tr && th.pc != Gone && !th.announced
    requires e.tag == NewThread && e.thread == t && (e.cloner == None ==> e.arg == -1)
    requires e.cloner.Some? ==>
               IsThread(m, tr, e.cloner.value) && m[e.cloner.value].kmpid == e.arg && m[e.cloner.value].pc != Gone
    ensures TracerOk(m[t := th], tr, Tracer(x.ntraced + 1, x.queue + [e]))
  {
    hide Dying, Rising, Announced, Traced, QueueOk;
    var m' := m[t := th];
    BirthQueue(m, tr, x, t, th, e);
    BirthSets(m, tr, t, th);
    LastIn(x.queue, e);
    forall u | IsThread(m', tr, u)
      ensures (m'[u].pc == Gone <==> u in Dying(x.queue + [e])) && (m'[u].announced || u in Rising(x.queue + [e]))
    {
      assert u == t || IsThread(m, tr, u);
    }
  }

  /** Reading an event that is neither a birth nor a death. */
  lemma TracerReadCall(m: map<Ref, Thread>, tr: TracerId, x: Tracer)
    requires TracerOk(m, tr, x) && x.queue != [] && x.queue[0].tag != NewThread && x.queue[0].tag != TermThread
    ensures IsThread(m, tr, x.queue[0].thread) && m[x.queue[0].thread].announced
    ensures TracerOk(m, tr, x.(queue := x.queue[1..]))
  {
    FirstOut(x.queue);
    assert {} + Deaths(x.queue[0]) == {} && Announced(m, tr) + Births(x.queue[0]) == Announced(m, tr);
  }

  lemma NewsSets(m: map<Ref, Thread>, tr: TracerId, t: Ref)
    requires IsThread(m, tr, t)
    ensures Announced(m[t := m[t].(announced := true)], tr) == Announced(m, tr) + {t}
    ensures Traced(m[t := m[t].(announced := true)], tr) == Traced(m, tr)
  {}

  lemma TracerReadBirth(m: map<Ref, Thread>, tr: TracerId, x: Tracer)
    requires TracerOk(m, tr, x) && x.queue != [] && x.queue[0].tag == NewThread
    ensures IsThread(m, tr, x.queue[0].thread)
    ensures TracerOk(m[x.queue[0].thread := m[x.queue[0].thread].(announced := true)], tr, x.(queue := x.queue[1..]))
  {
    hide Dying, Rising, Announced, Traced;
    var t := x.queue[0].thread;
    var m' := m[t := m[t].(announced := true)];
    FirstOut(x.queue);
    NewsSets(m, tr, t);
    assert {} + Deaths(x.queue[0]) == {};
    QueueFrame(m, m', tr, x.queue[1..], {}, Announced(m, tr) + {t});
    forall u | IsThread(m', tr, u)
      ensures (m'[u].pc == Gone <==> u in Dying(x.queue[1..])) && (m'[u].announced || u in Rising(x.queue[1..]))
    {
      assert IsThread(m, tr, u);
    }
  }

  lemma FreeSets(m: map<Ref, Thread>, tr: TracerId, t: Ref)
    requires t in m && m[t].pc == Gone
    ensures Announced(m - {t}, tr) == Announced(m, tr) - {t} && Traced(m - {t}, tr) == Traced(m, tr)
  {}

  lemma HeadOk(m: map<Ref, Thread>, tr: TracerId, x: Tracer)
    requires TracerOk(m, tr, x) && x.queue != []
    ensures EventOk(m, tr, x.queue[0], {}, Announced(m, tr))
    ensures QueueOk(m, tr, x.queue[1..], {} + Deaths(x.queue[0]), Announced(m, tr) + Births(x.queue[0]))
  {}

  lemma KnownIsAnnounced(m: map<Ref, Thread>, tr: TracerId, t: Ref)
    requires t in Announced(m, tr)
    ensures IsThread(m, tr, t) && m[t].announced
  {}

  lemma TracerReadDeath(m: map<Ref, Thread>, tr: TracerId, x: Tracer)
    requires TracerOk(m, tr, x) && x.queue != [] && x.queue[0].tag == TermThread
    ensures IsThread(m, tr, x.queue[0].thread) && m[x.queue[0].thread].announced
    ensures TracerOk(m - {x.queue[0].thread}, tr, x.(queue := x.queue[1..]))
  {
    hide Dying, Rising, Announced, Traced, QueueOk;
    var t, rest := x.queue[0].thread, x.queue[1..];
    var m' := m - {t};
    HeadOk(m, tr, x);
    KnownIsAnnounced(m, tr, t);
    FirstOut(x.queue);
    assert {} + Deaths(x.queue[0]) == {t} && Announced(m, tr) + Births(x.queue[0]) == Announced(m, tr);
    QueueForget(m, tr, rest, t, {t}, Announced(m, tr));
    assert {t} - {t} == {};
    FreeSets(m, tr, t);
    forall u | IsThread(m', tr, u)
      ensures (m'[u].pc == Gone <==> u in Dying(rest)) && (m'[u].announced || u in Rising(rest))
    {
      assert IsThread(m, tr, u);
    }
  }

  // ---- Steps ----

  lemma UpdateInv(s: State, t: Ref, th: Thread)
    requires Inv(s) && t in s.threads && SameLife(s.threads[t], th)
    ensures Inv(SetThread(s, t, th))
  {
    hide TracerOk;
    forall tr | tr in s.tracers ensures TracerOk(s.threads[t := th], tr, s.tracers[tr]) {
      TracerUpdate(s.threads, t, th, tr, s.tracers[tr]);
    }
  }

  /** Queueing an event of a call of a live thread. */
  lemma EnqueueInv(s: State, tr: TracerId, e: Event)
    requires Inv(s) && tr in s.tracers && IsThread(s.threads, tr, e.thread) && s.threads[e.thread].pc != Gone
    requires e.tag == SyscallEntry || e.tag == SyscallExit
    ensures Inv(Enqueue(s, tr, e))
  {
    hide TracerOk;
    TracerCall(s.threads, tr, s.tracers[tr], e);
  }

  lemma ReapInv(s: State, t: Ref)
    requires Inv(s) && t in s.threads && s.threads[t].pc != Gone
    ensures Inv(DoReap(s, t))
  {
    hide TracerOk;
    var s' := DoReap(s, t);
    TracerReap(s.threads, s.threads[t].tracer, s.tracers[s.threads[t].tracer], t);
    forall tr | tr in s.tracers ensures TracerOk(s'.threads, tr, s'.tracers[tr]) {
      if tr != s.threads[t].tracer { TracerOther(s.threads, s'.threads, tr, s.tracers[tr]); }
    }
  }

  lemma AddNamed(s: State, tr: TracerId, scno: int, regs: int, arg: int, cloner: Option<Ref>)
    requires Named(s) && tr in s.tracers
    ensures s.next !in s.threads && Named(AddThread(s, tr, scno, regs, arg, cloner))
  {
    hide Id.Good, Id.Alloc, Id.Next;
    Id.AllocGood(s.ids, s.next);
  }

  lemma AddThreadInv(s: State, tr: TracerId, scno: int, regs: int, arg: int, cloner: Option<Ref>)
    requires Inv(s) && tr in s.tracers && (cloner == None ==> arg == -1)
    requires cloner.Some? ==>
               var p := cloner.value;
               IsThread(s.threads, tr, p) && s.threads[p].kmpid == arg && s.threads[p].pc != Gone
    ensures Inv(AddThread(s, tr, scno, regs, arg, cloner))
  {
    hide TracerOk, Named, Id.Next;
    var s' := AddThread(s, tr, scno, regs, arg, cloner);
    var th := Born(tr, Id.Next(s.ids), scno, regs);
    AddNamed(s, tr, scno, regs, arg, cloner);
    TracerBirth(s.threads, tr, s.tracers[tr], s.next, th, Event(NewThread, s.next, arg, cloner));
    forall u | u in s.tracers ensures TracerOk(s'.threads, u, s'.tracers[u]) {
      if u != tr { TracerOther(s.threads, s'.threads, u, s.tracers[u]); }
    }
  }

  lemma FreeNamed(s: State, t: Ref)
    requires Named(s) && t in s.threads
    ensures Named(FreeThread(s, t))
  {
    hide Id.Good, Id.Free;
    Id.FreeGood(s.ids, s.threads[t].kmpid);
  }

  lemma ReadCallInv(s: State, tr: TracerId)
    requires Inv(s) && tr in s.tracers && s.tracers[tr].queue != []
    requires s.tracers[tr].queue[0].tag != NewThread && s.tracers[tr].queue[0].tag != TermThread
    ensures DoRead(s, tr).Next? && Inv(DoRead(s, tr).s)
  {
    hide TracerOk, Named;
    var e := s.tracers[tr].queue[0];
    TracerReadCall(s.threads, tr, s.tracers[tr]);
    PopNamed(s, tr);
    UpdateInv(Pop(s, tr), e.thread, s.threads[e.thread].(pending := Delivered(e.tag)));
  }

  lemma PopNamed(s: State, tr: TracerId)
    requires Named(s) && tr in s.tracers && s.tracers[tr].queue != []
    ensures Named(Pop(s, tr))
  {}

  /** Reading a birth or a death leaves the other tracers alone. */
  lemma OthersInv(s: State, s': State, tr: TracerId)
    requires Inv(s) && tr in s.tracers && Named(s') && tr in s'.tracers && TracerOk(s'.threads, tr, s'.tracers[tr])
    requires s'.tracers == s.tracers[tr := s'.tracers[tr]]
    requires forall t :: t in s'.threads ==> t in s.threads && s'.threads[t].tracer == s.threads[t].tracer
    requires forall t :: t in s.threads && s.threads[t].tracer != tr ==>
               t in s'.threads && s'.threads[t] == s.threads[t]
    ensures Inv(s')
  {
    hide TracerOk, Named;
    forall u | u in s'.tracers ensures TracerOk(s'.threads, u, s'.tracers[u]) {
      if u != tr { TracerOther(s.threads, s'.threads, u, s.tracers[u]); }
    }
  }

  lemma ReadInv(s: State, tr: TracerId)
    requires Inv(s) && tr in s.tracers && s.tracers[tr].queue != []
    ensures DoRead(s, tr).Next? && Inv(DoRead(s, tr).s)
  {
    hide TracerOk, Id.Good, Id.Free;
    var x := s.tracers[tr];
    var e := x.queue[0];
    if e.tag == NewThread {
      TracerReadBirth(s.threads, tr, x);
      OthersInv(s, DoRead(s, tr).s, tr);
    } else if e.tag == TermThread {
      TracerReadDeath(s.threads, tr, x);
      FreeNamed(s, e.thread);
      OthersInv(s, DoRead(s, tr).s, tr);
    } else {
      ReadCallInv(s, tr);
    }
  }

  /** Sweeping frees exactly the threads of the tracer with an id below n. */
  lemma {:induction false} SweepNamed(s: State, tr: TracerId, n: nat)
    requires Named(s) && n <= s.ids.n
    ensures Sweep(s, tr, n).Next? && Named(Sweep(s, tr, n).s)
    ensures var s' := Sweep(s, tr, n).s;
      && s'.ids.n == s.ids.n && s'.tracers == s.tracers && s'.next == s.next
      && (forall t :: t in s'.threads <==> t in s.threads && !(s.threads[t].tracer == tr && s.threads[t].kmpid < n))
      && (forall t :: t in s'.threads ==> s'.threads[t] == s.threads[t])
  {
    hide Id.Good;
    if n > 0 {
      SweepNamed(s, tr, n - 1);
      var s1 := Sweep(s, tr, n - 1).s;
      var t := Search(s1, n - 1);
      if t.Some? && s1.threads[t.value].tracer == tr {
        FreeNamed(s1, t.value);
      }
    }
  }

  lemma ReleaseInv(s: State, tr: TracerId)
    requires Inv(s) && tr in s.tracers
    ensures Step(s, Release(tr, false)).Next? && Inv(Step(s, Release(tr, false)).s)
    ensures forall t :: t in Step(s, Release(tr, false)).s.threads <==> t in s.threads && s.threads[t].tracer != tr
  {
    hide TracerOk, Sweep;
    SweepNamed(s, tr, s.ids.n);
    var s' := Step(s, Release(tr, false)).s;
    forall u | u in s'.tracers ensures TracerOk(s'.threads, u, s'.tracers[u]) {
      TracerOther(s.threads, s'.threads, u, s.tracers[u]);
    }
  }

  lemma EmptyTracer(m: map<Ref, Thread>, tr: TracerId)
    requires forall t :: t in m ==> m[t].tracer != tr
    ensures TracerOk(m, tr, Tracer(0, []))
  {
    assert Traced(m, tr) == {};
  }

  lemma OpenInv(s: State, tr: TracerId)
    requires Inv(s) && tr !in s.tracers
    ensures Inv(s.(tracers := s.tracers[tr := Tracer(0, [])]))
  {
    hide TracerOk, Id.Good;
    EmptyTracer(s.threads, tr);
  }

  lemma CallInv(s: State, t: Ref, number: int, deliver: bool)
    requires Inv(s) && t in s.threads && s.threads[t].pc != Gone
    ensures Inv(DoEntry(s, t, number, deliver)) && Inv(DoExit(s, t))
  {
    hide Inv;
    assert Inv(s) && s.threads[t].tracer in s.tracers by { ThreadTracer(s, t); }
    var tr := s.threads[t].tracer;
    var th := s.threads[t].(scno := number, regs := number, entered := Some(number), answer := None);
    var in1 := th.(saved := true, pc := AtEntry, pending := Queued(SyscallEntry));
    UpdateInv(s, t, in1);
    EnqueueInv(SetThread(s, t, in1), tr, Event(SyscallEntry, t, 0, None));
    UpdateInv(s, t, th.(pc := InCall, skipExit := true, skipCall := false));
    var was := s.threads[t];
    var th1 := was.(saved := true, regs := if was.skipCall then was.scno else was.regs);
    var out := th1.(pc := AtExit, pending := Queued(SyscallExit));
    UpdateInv(s, t, out);
    EnqueueInv(SetThread(s, t, out), tr, Event(SyscallExit, t, 0, None));
    UpdateInv(s, t, th1.(pc := User));
  }

  lemma InvNamed(s: State)
    requires Inv(s)
    ensures Named(s)
  {}

  lemma HeadThread(s: State, tr: TracerId)
    requires Inv(s) && tr in s.tracers && s.tracers[tr].queue != []
    ensures IsThread(s.threads, tr, s.tracers[tr].queue[0].thread)
  {}

  lemma ThreadTracer(s: State, t: Ref)
    requires Inv(s) && t in s.threads
    ensures s.threads[t].tracer in s.tracers
  {}

  lemma SearchExists(s: State, kmpid: int)
    requires Inv(s)
    ensures !Dangling(s, kmpid)
  {}

  /** An ioctl that names a thread by a negative id. */
  predicate Negative(a: Action) {
    (a.Answer? || a.SetUmpid?) && a.kmpid < 0
  }

  /** An ioctl that reads before the id table. */
  predicate WildSearch(s: State, a: Action) {
    Negative(a) && a.tr in s.tracers && s.ids.n > 0
  }

  /** A reply that writes to the registers of a thread that has none. */
  predicate WildReply(s: State, a: Action) {
    && a.Answer? && a.tr in s.tracers && a.reply != SysResume
    && var t := Target(s, a.tr, a.kmpid);
    t.Some? && NoRegisters(s.threads[t.value])
  }

  /** A step that uses the task of a dead thread after its memory was given away. */
  predicate DeadTask(s: State, a: Action) {
    && (a.Read? || a.Release?) && a.reused && a.tr in s.tracers
    && if a.Read? then s.tracers[a.tr].queue != [] && DeadHead(s, a.tr) else DeadThread(s, a.tr)
  }

  predicate Hazard(s: State, a: Action) {
    WildSearch(s, a) || WildReply(s, a) || DeadTask(s, a)
  }

  /**
    No step of the module touches a freed thread or tracer, and every step
    keeps the invariant.  The faults are these and no others: an ioctl with a
    negative id, which reads before the id table as soon as that has an entry,
    a reply that writes registers of a thread that has none, and the use of a
    dead task.
   */
  lemma StepSafe(s: State, a: Action)
    requires Inv(s)
    ensures Step(s, a) == Fault <==> Hazard(s, a)
    ensures Step(s, a).Next? ==> Inv(Step(s, a).s)
  {
    hide Inv, DoRead, DoEntry, DoExit, DoReap, AddThread, Sweep, SetThread;
    match a
    case Open(tr) => if tr !in s.tracers { OpenInv(s, tr); }
    case Attach(tr, scno, regs) => if tr in s.tracers { AddThreadInv(s, tr, scno, regs, -1, None); }
    case Clone(p, scno) =>
      if p in s.threads && s.threads[p].pc == InCall {
        ThreadTracer(s, p);
        AddThreadInv(s, s.threads[p].tracer, scno, s.threads[p].regs, s.threads[p].kmpid, Some(p));
      }
    case Entry(t, number, deliver) =>
      if t in s.threads && s.threads[t].pc == User { ThreadTracer(s, t); CallInv(s, t, number, deliver); }
    case Exit(t) =>
      if t in s.threads && s.threads[t].pc == InCall { ThreadTracer(s, t); CallInv(s, t, 0, false); }
    case Wake(t) =>
      if Step(s, a).Next? { UpdateInv(s, t, Woken(s.threads[t])); }
    case Reap(t) =>
      if t in s.threads && s.threads[t].pc != Gone { ThreadTracer(s, t); ReapInv(s, t); }
    case Read(tr, _) => if tr in s.tracers && s.tracers[tr].queue != [] { ReadInv(s, tr); }
    case SetUmpid(tr, kmpid, umpid) =>
      SearchExists(s, kmpid);
      var t := Target(s, tr, kmpid);
      if t.Some? { UpdateInv(s, t.value, s.threads[t.value].(umpid := umpid)); }
    case Answer(tr, kmpid, reply) =>
      SearchExists(s, kmpid);
      var t := Target(s, tr, kmpid);
      if t.Some? { UpdateInv(s, t.value, Answered(s.threads[t.value], reply)); }
    case Release(tr, _) => if tr in s.tracers { ReleaseInv(s, tr); }
  }

  // ---- Runs ----

  /** A run takes the actions that are possible and skips the others. */
  ghost predicate Run(s: State, actions: seq<Action>, s': State)
    decreases |actions|
  {
    if actions == [] then s' == s else
      match Step(s, actions[0])
      case Blocked => Run(s, actions[1..], s')
      case Fault => false
      case Next(s1) => Run(s1, actions[1..], s')
  }

  lemma {:induction false} RunInv(s: State, actions: seq<Action>, s': State)
    requires Inv(s) && Run(s, actions, s')
    ensures Inv(s')
    decreases |actions|
  {
    hide Inv, Step;
    if actions != [] {
      StepSafe(s, actions[0]);
      match Step(s, actions[0])
      case Blocked => RunInv(s, actions[1..], s');
      case Next(s1) => RunInv(s1, actions[1..], s');
    }
  }

  /** No action of a run is a hazard in the state it is taken in. */
  predicate Clean(s: State, actions: seq<Action>)
    decreases |actions|
  {
    actions == [] ||
    (!Hazard(s, actions[0]) && Clean(if Step(s, actions[0]).Next? then Step(s, actions[0]).s else s, actions[1..]))
  }

  /** From a good state every sequence of actions without a hazard leads, without a fault, to one good state. */
  lemma {:induction false} RunSafe(s: State, actions: seq<Action>) returns (s': State)
    requires Inv(s) && Clean(s, actions)
    ensures Run(s, actions, s') && Inv(s')
    ensures forall x :: Run(s, actions, x) ==> x == s'
    decreases |actions|
  {
    hide Inv, Step, Hazard;
    if actions == [] {
      s' := s;
    } else {
      StepSafe(s, actions[0]);
      if Step(s, actions[0]).Next? {
        s' := RunSafe(Step(s, actions[0]).s, actions[1..]);
      } else {
        s' := RunSafe(s, actions[1..]);
      }
    }
  }

  /** A sequence with a hazard does not run to its end. */
  lemma {:induction false} HazardFaults(s: State, actions: seq<Action>, s': State)
    requires Inv(s) && !Clean(s, actions)
    ensures !Run(s, actions, s')
    decreases |actions|
  {
    hide Inv, Step, Hazard;
    StepSafe(s, actions[0]);
    if !Hazard(s, actions[0]) {
      HazardFaults(if Step(s, actions[0]).Next? then Step(s, actions[0]).s else s, actions[1..], s');
    }
  }

  /** With one thread attached, a reply to id -1 is a fault. */
  lemma ReplyToMinusOne(reply: Reply, scno: int, regs: int)
    ensures var s := AddThread(State(Id.EMPTY, map[], map[0 := Tracer(0, [])], 0), 0, scno, regs, -1, None);
      Run(INITIAL, [Open(0), Attach(0, scno, regs)], s) && Step(s, Answer(0, -1, reply)) == Fault
  {
    var s1 := Step(INITIAL, Open(0)).s;
    assert s1 == State(Id.EMPTY, map[], map[0 := Tracer(0, [])], 0);
    var s := AddThread(s1, 0, scno, regs, -1, None);
    assert Step(s1, Attach(0, scno, regs)) == Next(s);
    assert s.ids.n == 1;
    assert [Open(0), Attach(0, scno, regs)][1..] == [Attach(0, scno, regs)];
    assert Run(s1, [Attach(0, scno, regs)], s);
  }

  /** A thread just attached has no registers yet: to answer it with anything but SYSRESUME is a fault. */
  lemma ReplyBeforeEntry(reply: Reply, scno: int, regs: int)
    ensures var s := AddThread(State(Id.EMPTY, map[], map[0 := Tracer(0, [])], 0), 0, scno, regs, -1, None);
      && Run(INITIAL, [Open(0), Attach(0, scno, regs)], s)
      && (Step(s, Answer(0, 0, reply)) == Fault <==> reply != SysResume)
  {
    ReplyToMinusOne(reply, scno, regs);
    var s := AddThread(State(Id.EMPTY, map[], map[0 := Tracer(0, [])], 0), 0, scno, regs, -1, None);
    assert Search(s, 0) == Some(0);
  }

  /** A thread that dies before its tracer reads of its birth: the pid in that report comes from a dead task. */
  lemma BirthReadAfterDeath(scno: int, regs: int)
    ensures var s := AddThread(State(Id.EMPTY, map[], map[0 := Tracer(0, [])], 0), 0, scno, regs, -1, None);
      && Run(INITIAL, [Open(0), Attach(0, scno, regs), Reap(0)], DoReap(s, 0))
      && Step(DoReap(s, 0), Read(0, true)) == Fault
  {
    var s1 := Step(INITIAL, Open(0)).s;
    assert s1 == State(Id.EMPTY, map[], map[0 := Tracer(0, [])], 0);
    var s := AddThread(s1, 0, scno, regs, -1, None);
    var s' := DoReap(s, 0);
    assert Step(s, Reap(0)) == Next(s');
    assert Run(s, [Reap(0)], s') by { assert [Reap(0)][1..] == []; }
    assert Run(s1, [Attach(0, scno, regs), Reap(0)], s') by {
      assert [Attach(0, scno, regs), Reap(0)][1..] == [Reap(0)];
    }
    assert [Open(0), Attach(0, scno, regs), Reap(0)][1..] == [Attach(0, scno, regs), Reap(0)];
    assert s'.tracers[0].queue[0] == Event(NewThread, 0, -1, None);
  }

  lemma InitialInv()
    ensures Inv(INITIAL)
  {}

  /** What the i-th event of a queue may rely on when it is read, whatever happened since it was queued. */
  ghost predicate Reliable(s: State, tr: TracerId, q: seq<Event>, i: nat)
    requires i < |q|
  {
    var e := q[i];
    && IsThread(s.threads, tr, e.thread)
    && (forall j :: 0 <= j < i && q[j].tag == TermThread ==> q[j].thread != e.thread)
    && (e.tag == NewThread ==>
          && !s.threads[e.thread].announced
          && (forall j :: 0 <= j < |q| && j != i && q[j].thread == e.thread ==> i < j && q[j].tag != NewThread))
    && (e.tag == NewThread && e.cloner.Some? ==>
          var p := e.cloner.value;
          && Search(s, e.arg) == Some(p) && IsThread(s.threads, tr, p)
          && (forall j :: 0 <= j < i && q[j].tag == TermThread ==> q[j].thread != p)
          && (s.threads[p].announced || exists j :: 0 <= j < i && q[j].tag == NewThread && q[j].thread == p))
    && (e.tag == NewThread && e.cloner == None ==> e.arg == -1)
  }

  /** The event of a queue that the recursion reaches, in terms of the events before it. */
  lemma {:induction false} QueueAt(m: map<Ref, Thread>, tr: TracerId, q: seq<Event>, dead: set<Ref>,
                                   known: set<Ref>, i: nat)
    requires QueueOk(m, tr, q, dead, known) && i < |q|
    ensures EventOk(m, tr, q[i], dead + Dying(q[..i]), known + Rising(q[..i]))
    decreases |q|
  {
    if i == 0 {
      assert dead + Dying(q[..0]) == dead && known + Rising(q[..0]) == known;
    } else {
      QueueAt(m, tr, q[1..], dead + Deaths(q[0]), known + Births(q[0]), i - 1);
      FirstOut(q[..i]);
      assert q[..i][1..] == q[1..][..i - 1];
      assert dead + Dying(q[..i]) == dead + Deaths(q[0]) + Dying(q[1..][..i - 1]);
      assert known + Rising(q[..i]) == known + Births(q[0]) + Rising(q[1..][..i - 1]);
    }
  }

  lemma Before(q: seq<Event>, i: nat, t: Ref)
    requires i <= |q|
    ensures t in Dying(q[..i]) <==> exists j :: 0 <= j < i && q[j].tag == TermThread && q[j].thread == t
    ensures t in Rising(q[..i]) <==> exists j :: 0 <= j < i && q[j].tag == NewThread && q[j].thread == t
  {
    var p := q[..i];
    forall j | 0 <= j < i ensures p[j] == q[j] {}
  }

  /** A thread is announced by one event, before every other event about it. */
  lemma OneAnnouncement(m: map<Ref, Thread>, tr: TracerId, q: seq<Event>, known: set<Ref>, i: nat, j: nat)
    requires QueueOk(m, tr, q, {}, known) && i < |q| && j < |q| && i != j
    requires q[i].tag == NewThread && q[j].thread == q[i].thread
    ensures i < j && q[j].tag != NewThread
  {
    QueueAt(m, tr, q, {}, known, i);
    QueueAt(m, tr, q, {}, known, j);
    Before(q, i, q[i].thread);
    Before(q, j, q[i].thread);
  }

  lemma QueueGood(s: State, tr: TracerId)
    requires Inv(s) && tr in s.tracers
    ensures QueueOk(s.threads, tr, s.tracers[tr].queue, {}, Announced(s.threads, tr))
  {}

  lemma SearchFinds(s: State, t: Ref)
    requires Inv(s) && t in s.threads
    ensures Search(s, s.threads[t].kmpid) == Some(t)
  {}

  lemma EventReliable(s: State, tr: TracerId, i: nat)
    requires Inv(s) && tr in s.tracers && i < |s.tracers[tr].queue|
    ensures Reliable(s, tr, s.tracers[tr].queue, i)
  {
    hide QueueOk, Dying, Rising, Inv, Search;
    var q := s.tracers[tr].queue;
    var e := q[i];
    QueueGood(s, tr);
    QueueAt(s.threads, tr, q, {}, Announced(s.threads, tr), i);
    Before(q, i, e.thread);
    if e.tag == NewThread {
      forall j | 0 <= j < |q| && j != i && q[j].thread == e.thread ensures i < j && q[j].tag != NewThread {
        OneAnnouncement(s.threads, tr, q, Announced(s.threads, tr), i, j);
      }
      if e.cloner.Some? {
        Before(q, i, e.cloner.value);
        SearchFinds(s, e.cloner.value);
      }
    }
  }

  /**
    In every state that any run reaches, and for every queued event: the thread
    exists and no earlier event will free it; a NEWTHREAD comes before all else
    about its thread and only once; and the id it holds finds the thread that
    cloned, which exists, stays until the event is read and is announced first.
   */
  lemma RunReliable(actions: seq<Action>, s: State, tr: TracerId, i: nat)
    requires Run(INITIAL, actions, s)
    requires tr in s.tracers && i < |s.tracers[tr].queue|
    ensures Reliable(s, tr, s.tracers[tr].queue, i)
  {
    hide Reliable, Run, Inv;
    InitialInv();
    RunInv(INITIAL, actions, s);
    EventReliable(s, tr, i);
  }

  /** Reading a NEWTHREAD reports the umpid of the thread that cloned, or -1 for a root. */
  lemma ReadReportsCloner(actions: seq<Action>, s: State, tr: TracerId)
    requires Run(INITIAL, actions, s) && tr in s.tracers && s.tracers[tr].queue != []
    requires s.tracers[tr].queue[0].tag == NewThread
    ensures var e := s.tracers[tr].queue[0];
      match e.cloner
      case None => Umppid(s, e) == -1
      case Some(p) =>
        && p in s.threads && s.threads[p].announced && s.threads[p].tracer == tr
        && Umppid(s, e) == s.threads[p].umpid
  {
    hide Run;
    RunReliable(actions, s, tr, 0);
  }

  /**
    The count sent with a death is the number of threads of the tracer still
    alive, so it is 0 exactly when the last one has died.
   */
  lemma RemainingExact(actions: seq<Action>, s: State, t: Ref)
    requires Run(INITIAL, actions, s) && t in s.threads && s.threads[t].pc != Gone
    ensures s.threads[t].tracer in s.tracers
    ensures var s' := DoReap(s, t);
      var tr := s.threads[t].tracer;
      var q := s'.tracers[tr].queue;
      && q[|q| - 1].tag == TermThread && q[|q| - 1].thread == t
      && q[|q| - 1].arg == |Traced(s'.threads, tr)|
      && (q[|q| - 1].arg == 0 <==> forall u :: IsThread(s'.threads, tr, u) ==> s'.threads[u].pc == Gone)
  {
    hide Run, Inv, TracerOk;
    InitialInv();
    RunInv(INITIAL, actions, s);
    ThreadTracer(s, t);
    ReapInv(s, t);
    var s' := DoReap(s, t);
    TracerCounts(s', s.threads[t].tracer);
    forall u | IsThread(s'.threads, s.threads[t].tracer, u) && s'.threads[u].pc != Gone
      ensures u in Traced(s'.threads, s.threads[t].tracer) {}
  }

  lemma TracerCounts(s: State, tr: TracerId)
    requires Inv(s) && tr in s.tracers
    ensures s.tracers[tr].ntraced == |Traced(s.threads, tr)|
  {}
}
