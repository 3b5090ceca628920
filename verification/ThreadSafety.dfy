/** What every step of the thread system keeps, and what holds over whole runs. */
module ThreadSafety {
  import opened Basics
  import opened ThreadSpec

  ghost predicate Runnable(t: Thread) {
    t.state.Ready? || t.state.Running?
  }

  /** The run queue holds exactly the threads that are ready or running, once each;
      only the current thread may be running. */
  ghost predicate QueueOk(s: State) {
    && NoRepeats(s.runq)
    && (forall t :: t in s.runq <==> t in s.threads && Runnable(s.threads[t]))
    && s.current in s.threads
    && (forall t :: t in s.threads && s.threads[t].state.Running? ==> t == s.current)
    && IDLE_THREAD in s.threads && IDLE_THREAD in s.runq && s.threads[IDLE_THREAD].pc.Free?
    && TIMER_THREAD in s.threads && (s.threads[TIMER_THREAD].pc.Free? || s.threads[TIMER_THREAD].pc.Slept?)
  }

  /** How the state of a thread goes with where it is. */
  ghost predicate PlaceOk(s: State) {
    forall t :: t in s.threads ==>
      var th := s.threads[t];
      && (th.state.Zombie? <==> th.pc.Done?)
      && (th.pc.Destroying? ==> Runnable(th))
  }

  /** A joiner and the thread it waits for know each other, and the joiner sleeps exactly
      until the other has finished. */
  ghost predicate JoinOk(s: State) {
    && (forall a :: a in s.threads && s.threads[a].pc.Joining? ==>
         var t := s.threads[a].pc.target;
         && t in s.threads && s.threads[t].joiner == Some(a)
         && (s.threads[a].state.Sleeping? <==> !s.threads[t].state.Zombie?))
    && (forall t :: t in s.threads && s.threads[t].joiner.Some? ==>
         var a := s.threads[t].joiner.value;
         a in s.threads && s.threads[a].pc == Joining(t))
  }

  ghost predicate Active(s: State, tm: TimerId) {
    tm in s.pending || s.phase == Handling(tm)
  }

  ghost predicate TimersOk(s: State) {
    && NoRepeats(s.pending)
    && (forall tm :: Active(s, tm) ==> tm in s.timers)
    && (forall tm :: tm in s.timers ==>
         && (s.timers[tm].running <==> s.phase == Handling(tm))
         && s.timers[tm].fires + (if tm in s.pending then 1 else 0) <= s.timers[tm].starts)
  }

  /** A thread in `thread_sleep` that has not been woken. */
  ghost predicate Dozes(t: Thread) {
    t.pc.Slept? && t.state.Sleeping?
  }

  /** The timer of a thread is active only while the thread is in `thread_sleep`, and as long as
      it has not been woken. */
  ghost predicate SleepersOk(s: State) {
    && s.phase != Handling(Own(TIMER_THREAD))
    && (forall t: Tid :: Active(s, Own(t)) ==>
         t in s.threads && (s.threads[t].pc.Slept? || s.threads[t].pc == Destroying(Own(t))))
    && (forall t :: t in s.threads && s.threads[t].pc.Slept? ==> Own(t) in s.timers)
    && (forall t :: t in s.threads && Dozes(s.threads[t]) ==> Active(s, Own(t)))
    && (forall t :: t in s.threads && s.threads[t].pc.Destroying? ==>
         s.threads[t].pc.timer in s.timers && (s.threads[t].pc.timer.Own? ==> s.threads[t].pc.timer == Own(t)))
  }

  /** What one event of the history says. */
  ghost predicate EventOk(s: State, i: nat)
    requires i < |s.log|
  {
    match s.log[i]
    // a join delivers what its thread has finished with, and destroys it
    case Joined(_, t, v) => i + 1 < |s.log| && s.log[i + 1] == Destroyed(t) && Finished(t, v) in s.log[..i]
    case Destroyed(t) => 0 < i && s.log[i - 1].Joined? && s.log[i - 1].thread == t && t !in s.threads
    // a finished thread keeps its value until it is destroyed
    case Finished(t, v) =>
      if t in s.threads then s.threads[t].state.Zombie? && s.threads[t].retval == v else Destroyed(t) in s.log
    case Fired(_, expires, at) => expires < at
  }

  /** A second join, or a second end, of the same thread. */
  ghost predicate Repeats(e: Event, f: Event) {
    || (e.Joined? && f.Joined? && e.thread == f.thread)
    || (e.Finished? && f.Finished? && e.thread == f.thread)
  }

  /** The history: threads finish once, are joined once and after that, with the value they
      have finished with, and are destroyed exactly then; timers fire after they expire. */
  ghost predicate LogOk(s: State) {
    && (forall i :: 0 <= i < |s.log| ==> EventOk(s, i))
    && (forall i, j :: 0 <= i < j < |s.log| ==> !Repeats(s.log[i], s.log[j]))
    && (forall t :: t in s.threads && s.threads[t].state.Zombie? ==> Finished(t, s.threads[t].retval) in s.log)
  }

  /** What holds also while the current thread is on its way to leave the processor. */
  ghost predicate Core(s: State) {
    QueueOk(s) && PlaceOk(s) && JoinOk(s) && TimersOk(s) && SleepersOk(s) && LogOk(s)
  }

  ghost predicate Inv(s: State) {
    Core(s) && s.threads[s.current].state.Running?
  }

  // ---------------------------------------------------------------- queues

  lemma {:induction false} RemoveIn<T>(q: seq<T>, x: T, y: T)
    requires NoRepeats(q)
    ensures y in Remove(q, x) <==> y in q && y != x
  {
    if q != [] {
      assert y in q <==> y == q[0] || y in q[1..];
      if q[0] != x {
        RemoveIn(q[1..], x, y);
      }
    }
  }

  lemma {:induction false} RemoveFacts<T>(q: seq<T>, x: T)
    requires NoRepeats(q)
    ensures NoRepeats(Remove(q, x))
    ensures forall y :: y in Remove(q, x) <==> y in q && y != x
  {
    forall y
      ensures y in Remove(q, x) <==> y in q && y != x
    {
      RemoveIn(q, x, y);
    }
    if q != [] && q[0] != x {
      RemoveFacts(q[1..], x);
      assert forall i :: 0 < i < |q| ==> q[i] == q[1..][i - 1];
      assert q[0] !in q[1..];
    }
  }

  lemma RotateFacts<T>(q: seq<T>)
    requires NoRepeats(q) && q != []
    ensures NoRepeats(Rotate(q)) && forall y :: y in Rotate(q) <==> y in q
  {
    assert q == [q[0]] + q[1..];
  }

  // ---------------------------------------------------------------- kernel functions

  /** The same timers. */
  ghost predicate SameTimers(s: State, s': State) {
    s'.timers == s.timers && s'.pending == s.pending && s'.phase == s.phase
  }

  /** The same threads, at the same places, with the same joiners; all that may be
      different is which of them are ready or running, asleep or awake. */
  ghost predicate SamePlaces(s: State, s': State) {
    && s'.threads.Keys == s.threads.Keys
    && forall t :: t in s.threads ==> SamePlace(s.threads[t], s'.threads[t])
  }

  ghost predicate SamePlace(a: Thread, b: Thread) {
    b.pc == a.pc && b.joiner == a.joiner && b.retval == a.retval && (b.state.Zombie? <==> a.state.Zombie?)
  }

  /** Also nobody wakes up or falls asleep. */
  ghost predicate SameSleepers(s: State, s': State)
    requires SamePlaces(s, s')
  {
    forall t :: t in s.threads ==> (s'.threads[t].state.Sleeping? <==> s.threads[t].state.Sleeping?)
  }

  lemma SameRest(s: State, s': State)
    requires PlaceOk(s) && JoinOk(s) && TimersOk(s) && SleepersOk(s) && LogOk(s)
    requires SameTimers(s, s') && SamePlaces(s, s') && SameSleepers(s, s') && s'.log == s.log
    ensures PlaceOk(s') && JoinOk(s') && TimersOk(s') && SleepersOk(s') && LogOk(s')
  {
    hide JoinOk, TimersOk, SleepersOk, LogOk;
    SameJoins(s, s');
    SameLog(s, s');
    SameTimersOk(s, s');
    SameOwners(s, s');
  }

  lemma SameJoins(s: State, s': State)
    requires JoinOk(s) && SamePlaces(s, s') && SameSleepers(s, s')
    ensures JoinOk(s')
  {
  }

  lemma SameLog(s: State, s': State)
    requires LogOk(s) && s'.log == s.log && SamePlaces(s, s')
    ensures LogOk(s')
  {
    forall i | 0 <= i < |s'.log|
      ensures EventOk(s', i)
    {
      assert EventOk(s, i);
    }
  }

  lemma Members(s: State)
    requires QueueOk(s)
    ensures s.current in s.threads && TIMER_THREAD in s.threads && !s.threads[TIMER_THREAD].pc.Joining?
    ensures forall t :: t in s.runq ==> t in s.threads
  {
  }

  lemma ScheduleQueue(s: State)
    requires QueueOk(s)
    ensures s.runq != [] && QueueOk(Schedule(s)) && Schedule(s).threads[Schedule(s).current].state.Running?
    ensures SamePlaces(s, Schedule(s)) && SameSleepers(s, Schedule(s))
  {
    hide Rotate, NoRepeats;
    RotateFacts(s.runq);
  }

  /** `schedule` always finds a thread to run. */
  lemma ScheduleInv(s: State)
    requires Core(s)
    ensures Inv(Schedule(s)) && s.runq != []
    ensures Schedule(s).current == s.runq[0] && Schedule(s).runq == Rotate(s.runq)
    ensures SameTimers(s, Schedule(s)) && SamePlaces(s, Schedule(s)) && Schedule(s).log == s.log
  {
    hide PlaceOk, JoinOk, TimersOk, SleepersOk, LogOk, QueueOk;
    Members(s);
    ScheduleQueue(s);
    SameRest(s, Schedule(s));
  }

  lemma SleepQueue(s: State)
    requires QueueOk(s) && s.current != IDLE_THREAD
    ensures QueueOk(GoToSleep(s))
  {
    RemoveFacts(s.runq, s.current);
  }

  lemma WakeQueue(s: State, t: Tid)
    requires QueueOk(s) && t in s.threads
    ensures QueueOk(WakeThread(s, t))
  {
  }

  /** A thread that waits for another one is woken up only when that one has finished. */
  lemma WakeCore(s: State, t: Tid)
    requires Core(s) && t in s.threads && !s.threads[t].pc.Joining?
    ensures Core(WakeThread(s, t)) && SamePlaces(s, WakeThread(s, t)) && WakeThread(s, t).current == s.current
    ensures s.threads[s.current].state.Running? ==> WakeThread(s, t).threads[s.current].state.Running?
  {
    Members(s);
    hide TimersOk, SleepersOk, LogOk, QueueOk, PlaceOk, JoinOk;
    var s' := WakeThread(s, t);
    WakeQueue(s, t);
    WakePlaces(s, t);
    WakeJoins(s, t);
    WakeIs(s, t);
    hide WakeThread, SamePlaces, SameTimers;
    SameLog(s, s');
    SameOwners(s, s');
    SameTimersOk(s, s');
  }

  lemma WakeIs(s: State, t: Tid)
    requires s.current in s.threads && t in s.threads
    ensures
      var s' := WakeThread(s, t);
      && SamePlaces(s, s') && SameTimers(s, s') && s'.log == s.log && s'.current == s.current
      && s.current in s'.threads && s'.threads.Keys == s.threads.Keys
      && (forall u :: u in s.threads && Dozes(s'.threads[u]) ==> Dozes(s.threads[u]))
      && (s.threads[s.current].state.Running? ==> s'.threads[s.current].state.Running?)
  {
  }

  lemma WakePlaces(s: State, t: Tid)
    requires PlaceOk(s) && t in s.threads
    ensures PlaceOk(WakeThread(s, t))
  {
  }

  lemma WakeJoins(s: State, t: Tid)
    requires JoinOk(s) && t in s.threads && !s.threads[t].pc.Joining?
    ensures JoinOk(WakeThread(s, t))
  {
  }

  lemma SameTimersOk(s: State, s': State)
    requires TimersOk(s) && SameTimers(s, s')
    ensures TimersOk(s')
  {
  }

  lemma SameOwners(s: State, s': State)
    requires SleepersOk(s) && SameTimers(s, s') && SamePlaces(s, s')
    requires forall t :: t in s.threads && Dozes(s'.threads[t]) ==> Dozes(s.threads[t])
    ensures SleepersOk(s')
  {
  }

  // ---------------------------------------------------------------- steps

  lemma YieldInv(s: State)
    requires Inv(s) && Enabled(s, Yield)
    ensures Inv(Next(s, Yield))
  {
    ScheduleInv(s);
  }

  lemma SuspendCore(s: State)
    requires Inv(s) && s.current != IDLE_THREAD && s.threads[s.current].pc.Free?
    ensures Core(GoToSleep(s))
  {
    hide TimersOk, SleepersOk, LogOk, QueueOk;
    Members(s);
    var s' := GoToSleep(s);
    SleepQueue(s);
    SameLog(s, s');
    SameOwners(s, s');
    SameTimersOk(s, s');
  }

  lemma WakeupInv(s: State, t: Tid)
    requires Inv(s) && Enabled(s, Wakeup(t))
    ensures Inv(Next(s, Wakeup(t)))
  {
    WakeCore(s, t);
  }

  lemma LaterCore(s: State)
    requires Core(s)
    ensures Core(s.(jiffies := s.jiffies + 1))
  {
    hide PlaceOk, JoinOk, TimersOk, SleepersOk, LogOk;
    SameRest(s, s.(jiffies := s.jiffies + 1));
  }

  lemma TickInv(s: State, quantum: bool)
    requires Inv(s) && Enabled(s, Tick(quantum))
    ensures Inv(Next(s, Tick(quantum)))
  {
    hide Core, Schedule, RunTimers;
    var s1 := s.(jiffies := s.jiffies + 1);
    LaterCore(s);
    RunTimersCore(s1);
    ScheduleInv(RunTimers(s1));
  }

  lemma RunTimersCore(s: State)
    requires Core(s) && TIMER_THREAD in s.threads && s.current in s.threads
    ensures Core(RunTimers(s)) && RunTimers(s).current in RunTimers(s).threads
    ensures s.threads[s.current].state.Running? ==> RunTimers(s).threads[RunTimers(s).current].state.Running?
  {
    hide Core, Expired;
    CoreMembers(s);
    WakeCore(s, TIMER_THREAD);
  }

  lemma CoreMembers(s: State)
    requires Core(s)
    ensures s.current in s.threads && TIMER_THREAD in s.threads && !s.threads[TIMER_THREAD].pc.Joining?
    ensures forall t :: t in s.runq ==> t in s.threads
  {
    Members(s);
  }

  lemma CreateInv(s: State, child: Tid)
    requires Inv(s) && Enabled(s, Create(child))
    ensures Inv(Next(s, Create(child)))
  {
    hide LogOk, QueueOk, JoinOk, TimersOk, SleepersOk, PlaceOk;
    Members(s);
    var s' := Next(s, Create(child));
    CreatePlaces(s, child);
    CreateLog(s, child);
    CreateQueue(s, child);
    CreateJoins(s, child);
    SameTimersOk(s, s');
    OwnersFrame(s, s');
  }

  lemma CreatePlaces(s: State, child: Tid)
    requires PlaceOk(s) && Enabled(s, Create(child))
    ensures PlaceOk(Next(s, Create(child)))
  {
  }

  lemma CreateQueue(s: State, child: Tid)
    requires QueueOk(s) && Enabled(s, Create(child))
    ensures QueueOk(Next(s, Create(child)))
  {
  }

  lemma CreateJoins(s: State, child: Tid)
    requires JoinOk(s) && Enabled(s, Create(child))
    ensures JoinOk(Next(s, Create(child)))
  {
  }

  lemma CreateLog(s: State, child: Tid)
    requires Inv(s) && Enabled(s, Create(child))
    ensures LogOk(Next(s, Create(child)))
  {
    var s' := Next(s, Create(child));
    forall i | 0 <= i < |s'.log|
      ensures EventOk(s', i)
    {
      assert EventOk(s, i) && s.log[i] in s.log;
    }
  }

  lemma SleepInv(s: State, timeout: nat)
    requires Inv(s) && Enabled(s, Sleep(timeout))
    ensures Inv(Next(s, Sleep(timeout)))
  {
    SleepCore(s, timeout);
    var s1 := GoToSleep(SetPc(s, s.current, Slept));
    ScheduleInv(StartTimer(InitTimer(s1, Own(s.current), timeout), Own(s.current)));
  }

  /** The timer of the thread is not in use when the thread goes to sleep. */
  lemma SleepCore(s: State, timeout: nat)
    requires Inv(s) && Enabled(s, Sleep(timeout))
    ensures !Active(s, Own(s.current))
    ensures Core(StartTimer(InitTimer(GoToSleep(SetPc(s, s.current, Slept)), Own(s.current), timeout), Own(s.current)))
  {
    hide TimersOk, SleepersOk;
    NotActive(s);
    var s2 := GoToSleep(SetPc(s, s.current, Slept));
    SleptCore(s, s2);
    hide Inv, Core, QueueOk, PlaceOk, JoinOk, LogOk;
    StartedCore(s, s2, timeout);
  }

  lemma NotActive(s: State)
    requires Inv(s) && s.threads[s.current].pc.Free?
    ensures !Active(s, Own(s.current))
  {
  }

  lemma SleptCore(s: State, s2: State)
    requires Inv(s) && s.current != IDLE_THREAD && s.threads[s.current].pc.Free?
    requires s2 == GoToSleep(SetPc(s, s.current, Slept))
    ensures QueueOk(s2) && PlaceOk(s2) && JoinOk(s2) && LogOk(s2)
  {
    hide TimersOk, SleepersOk, LogOk, JoinOk;
    SleepQueue(SetPc(s, s.current, Slept));
    LogFrame(s, s2);
    JoinsFrame(s, s2);
  }

  /** The timer part of going to sleep. */
  lemma StartedCore(s: State, s2: State, timeout: nat)
    requires Inv(s) && !Active(s, Own(s.current)) && s.threads[s.current].pc.Free?
    requires QueueOk(s2) && PlaceOk(s2) && JoinOk(s2) && LogOk(s2)
    requires SameTimers(s, s2) && s2.current == s.current && s2.jiffies == s.jiffies
    requires s2.threads == s.threads[s.current := s.threads[s.current].(pc := Slept, state := Sleeping)]
    ensures Core(StartTimer(InitTimer(s2, Own(s.current), timeout), Own(s.current)))
  {
    hide JoinOk, PlaceOk, TimersOk, SleepersOk, LogOk, QueueOk;
    Members(s);
    var s4 := StartTimer(InitTimer(s2, Own(s.current), timeout), Own(s.current));
    StartedTimers(s, s4, timeout);
    StartedOwners(s, s4, timeout);
    JoinsFrame(s2, s4);
    LogFrame(s2, s4);
    SamePlaceOk(s2, s4);
    SameQueueOk(s2, s4);
  }

  lemma StartedTimers(s: State, s4: State, timeout: nat)
    requires TimersOk(s) && !Active(s, Own(s.current)) && s4.phase == s.phase
    requires s4.timers == StartTimer(InitTimer(s, Own(s.current), timeout), Own(s.current)).timers
    requires s4.pending == s.pending + [Own(s.current)]
    ensures TimersOk(s4)
  {
  }

  lemma StartedOwners(s: State, s4: State, timeout: nat)
    requires SleepersOk(s) && s.current in s.threads && s4.phase == s.phase && s.threads[s.current].pc.Free?
    requires s4.timers == StartTimer(InitTimer(s, Own(s.current), timeout), Own(s.current)).timers
    requires s4.pending == s.pending + [Own(s.current)]
    requires s4.threads == s.threads[s.current := s.threads[s.current].(pc := Slept, state := Sleeping)]
    ensures SleepersOk(s4)
  {
  }

  lemma SamePlaceOk(s: State, s': State)
    requires PlaceOk(s) && s'.threads == s.threads
    ensures PlaceOk(s')
  {
  }

  /** What the history says depends on which threads there are and what they have finished with. */
  lemma LogFrame(s: State, s': State)
    requires LogOk(s) && s'.log == s.log && s'.threads.Keys == s.threads.Keys
    requires forall t :: t in s.threads ==>
      s'.threads[t].retval == s.threads[t].retval && (s'.threads[t].state.Zombie? <==> s.threads[t].state.Zombie?)
    ensures LogOk(s')
  {
    forall i | 0 <= i < |s'.log|
      ensures EventOk(s', i)
    {
      assert EventOk(s, i);
    }
  }

  /** Who waits for whom, when nobody begins or stops to wait. */
  lemma JoinsFrame(s: State, s': State)
    requires JoinOk(s) && s'.threads.Keys == s.threads.Keys
    requires forall t :: t in s.threads ==>
      && s'.threads[t].joiner == s.threads[t].joiner
      && (s'.threads[t].state.Zombie? <==> s.threads[t].state.Zombie?)
      && (if s.threads[t].pc.Joining?
          then s'.threads[t].pc == s.threads[t].pc && (s'.threads[t].state.Sleeping? <==> s.threads[t].state.Sleeping?)
          else !s'.threads[t].pc.Joining?)
    ensures JoinOk(s')
  {
  }

  ghost predicate UsesOwnTimer(pc: Pc) {
    pc.Slept? || pc.Destroying?
  }

  /** Who uses a timer, when nobody begins or stops to. */
  lemma OwnersFrame(s: State, s': State)
    requires SleepersOk(s) && SameTimers(s, s')
    requires forall t :: t in s'.threads && UsesOwnTimer(s'.threads[t].pc) ==>
      t in s.threads && s.threads[t].pc == s'.threads[t].pc
    requires forall t :: t in s.threads && UsesOwnTimer(s.threads[t].pc) ==>
      t in s'.threads && s.threads[t].pc == s'.threads[t].pc
    requires forall t :: t in s'.threads && Dozes(s'.threads[t]) ==> t in s.threads && Dozes(s.threads[t])
    ensures SleepersOk(s')
  {
  }

  /** The current thread, in `timer_destroy` or on its way to it, with its timer `tm`. */
  ghost predicate MayAwait(s: State, tm: TimerId)
    requires s.current in s.threads
  {
    var pc := s.threads[s.current].pc;
    && tm in s.timers && s.current != IDLE_THREAD && (s.current == TIMER_THREAD ==> !s.timers[tm].running)
    && if tm.Own? then tm == Own(s.current) && (pc.Slept? || pc == Destroying(tm)) else pc.Free? || pc == Destroying(tm)
  }

  lemma AwaitInv(s: State, tm: TimerId)
    requires Inv(s) && MayAwait(s, tm)
    ensures Inv(AwaitHandler(s, tm))
    ensures !s.timers[tm].running ==> !Active(AwaitHandler(s, tm), tm)
  {
    if s.timers[tm].running {
      var s1 := SetPc(s, s.current, Destroying(tm));
      AwaitCore(s, s1, tm);
      ScheduleInv(s1);
    } else {
      var s' := AwaitHandler(s, tm);
      RemoveFacts(s.pending, tm);
      InactiveCore(s, s', tm);
    }
  }

  lemma AwaitCore(s: State, s1: State, tm: TimerId)
    requires Inv(s) && MayAwait(s, tm) && s.timers[tm].running && s1 == SetPc(s, s.current, Destroying(tm))
    ensures Core(s1)
  {
    hide QueueOk, PlaceOk, JoinOk, LogOk, TimersOk, SleepersOk;
    AwaitQueue(s, s1, tm);
    LogFrame(s, s1);
    JoinsFrame(s, s1);
    SameTimersOk(s, s1);
    AwaitOwners(s, s1, tm);
  }

  lemma AwaitQueue(s: State, s1: State, tm: TimerId)
    requires QueueOk(s) && PlaceOk(s) && s.threads[s.current].state.Running?
    requires MayAwait(s, tm) && s.timers[tm].running && s1 == SetPc(s, s.current, Destroying(tm))
    ensures QueueOk(s1) && PlaceOk(s1) && s.current in s.threads
  {
  }

  lemma AwaitOwners(s: State, s1: State, tm: TimerId)
    requires SleepersOk(s) && s.current in s.threads
    requires MayAwait(s, tm) && s1 == SetPc(s, s.current, Destroying(tm))
    ensures SleepersOk(s1)
  {
  }

  lemma InactiveCore(s: State, s': State, tm: TimerId)
    requires Inv(s) && MayAwait(s, tm) && s' == SetPc(s, s.current, Free).(pending := Remove(s.pending, tm))
    requires NoRepeats(s'.pending) && (forall x :: x in s'.pending <==> x in s.pending && x != tm)
    requires s.phase != Handling(tm)
    ensures Core(s')
  {
    hide JoinOk, LogOk, TimersOk, QueueOk, PlaceOk, SleepersOk;
    Members(s);
    InactiveTimers(s, s', tm);
    InactiveOwners(s, s', tm);
    InactiveQueue(s, s');
    LogFrame(s, s');
    JoinsFrame(s, s');
  }

  lemma InactiveOwners(s: State, s': State, tm: TimerId)
    requires SleepersOk(s) && s.current in s.threads && MayAwait(s, tm) && s.phase != Handling(tm)
    requires s'.threads == s.threads[s.current := s.threads[s.current].(pc := Free)]
    requires s'.timers == s.timers && s'.phase == s.phase
    requires (forall x :: x in s'.pending <==> x in s.pending && x != tm)
    ensures SleepersOk(s')
  {
  }

  lemma InactiveQueue(s: State, s': State)
    requires QueueOk(s) && PlaceOk(s) && s.current in s.threads && s.threads[s.current].state.Running?
    requires s'.threads == s.threads[s.current := s.threads[s.current].(pc := Free)]
    requires s'.runq == s.runq && s'.current == s.current
    ensures QueueOk(s') && PlaceOk(s')
  {
  }

  lemma InactiveTimers(s: State, s': State, tm: TimerId)
    requires TimersOk(s) && s'.timers == s.timers && s'.phase == s.phase
    requires NoRepeats(s'.pending) && (forall x :: x in s'.pending <==> x in s.pending && x != tm)
    ensures TimersOk(s')
  {
  }

  lemma {:induction false} ExpiredFacts(timers: map<TimerId, Timer>, pending: seq<TimerId>, jiffies: nat)
    ensures
      match Expired(timers, pending, jiffies)
      case Some(tm) => tm in pending && tm in timers && timers[tm].expires < jiffies
      case None => forall tm :: tm in pending && tm in timers ==> timers[tm].expires >= jiffies
  {
    if pending != [] {
      ExpiredFacts(timers, pending[1..], jiffies);
      assert forall tm :: tm in pending <==> tm == pending[0] || tm in pending[1..];
    }
  }

  /** The timer that is found is the first one in the list that has expired. */
  lemma {:induction false} ExpiredFirst(timers: map<TimerId, Timer>, pending: seq<TimerId>, jiffies: nat)
    returns (i: nat)
    requires Expired(timers, pending, jiffies).Some?
    ensures i < |pending| && pending[i] == Expired(timers, pending, jiffies).value
    ensures pending[i] in timers && timers[pending[i]].expires < jiffies
    ensures forall k :: 0 <= k < i && pending[k] in timers ==> timers[pending[k]].expires >= jiffies
  {
    if pending[0] in timers && timers[pending[0]].expires < jiffies {
      i := 0;
    } else {
      i := ExpiredFirst(timers, pending[1..], jiffies);
      i := i + 1;
      assert pending[i] == pending[1..][i - 1];
      assert forall k :: 0 < k < i ==> pending[k] == pending[1..][k - 1];
    }
  }

  lemma ScanInv(s: State)
    requires Inv(s) && Enabled(s, Scan)
    ensures Inv(Next(s, Scan))
  {
    hide JoinOk, LogOk, PlaceOk, QueueOk, TimersOk, SleepersOk;
    Members(s);
    var s' := Next(s, Scan);
    JoinsFrame(s, s');
    SamePlaceOk(s, s');
    SameQueueOk(s, s');
    ExpiredFacts(s.timers, s.pending, s.jiffies);
    FiredLog(s, s');
    ScanTimers(s, s');
    ScanOwners(s, s');
  }

  lemma ScanTimers(s: State, s': State)
    requires TimersOk(s) && Enabled(s, Scan) && s' == Next(s, Scan)
    ensures TimersOk(s')
  {
    ExpiredFacts(s.timers, s.pending, s.jiffies);
    if s'.phase.Handling? {
      RemoveFacts(s.pending, s'.phase.timer);
    }
  }

  lemma ScanOwners(s: State, s': State)
    requires TimersOk(s) && SleepersOk(s) && Enabled(s, Scan) && s' == Next(s, Scan)
    ensures SleepersOk(s')
  {
    ExpiredFacts(s.timers, s.pending, s.jiffies);
    if s'.phase.Handling? {
      RemoveFacts(s.pending, s'.phase.timer);
    }
  }

  lemma SameQueueOk(s: State, s': State)
    requires QueueOk(s) && s'.threads == s.threads && s'.runq == s.runq && s'.current == s.current
    ensures QueueOk(s')
  {
  }

  lemma FiredLog(s: State, s': State)
    requires LogOk(s) && s'.threads == s.threads
    requires s'.log == s.log || (|s'.log| == |s.log| + 1 && s.log == s'.log[..|s.log|] &&
      s'.log[|s.log|].Fired? && s'.log[|s.log|].expires < s'.log[|s.log|].at)
    ensures LogOk(s')
  {
    assert forall e :: e in s.log ==> e in s'.log;
    forall i | 0 <= i < |s'.log|
      ensures EventOk(s', i)
    {
      if i < |s.log| {
        assert EventOk(s, i) && s'.log[..i] == s.log[..i];
      }
    }
  }

  lemma HandlerReturnInv(s: State)
    requires Inv(s) && Enabled(s, HandlerReturn)
    ensures Inv(Next(s, HandlerReturn))
  {
    hide JoinOk, LogOk, PlaceOk, QueueOk, TimersOk, SleepersOk;
    var s' := Next(s, HandlerReturn);
    JoinsFrame(s, s');
    SamePlaceOk(s, s');
    SameQueueOk(s, s');
    FiredLog(s, s');
    HandlerTimers(s, s');
    HandlerOwners(s, s');
  }

  lemma HandlerTimers(s: State, s': State)
    requires TimersOk(s) && s.phase.Handling? && s.phase.timer in s.timers
    requires s'.pending == s.pending && s'.phase == Scanning
    requires s'.timers == s.timers[s.phase.timer := s.timers[s.phase.timer].(running := false)]
    ensures TimersOk(s')
  {
  }

  lemma HandlerOwners(s: State, s': State)
    requires SleepersOk(s) && s'.threads == s.threads && s'.pending == s.pending && s'.phase == Scanning
    requires s.timers.Keys <= s'.timers.Keys
    requires forall t :: t in s.threads && s.phase == Handling(Own(t)) ==> !Dozes(s.threads[t])
    ensures SleepersOk(s')
  {
  }

  lemma TimerSuspendInv(s: State)
    requires Inv(s) && Enabled(s, TimerSuspend)
    ensures Inv(Next(s, TimerSuspend))
  {
    var s1 := s.(phase := Scanning);
    ScanningInv(s, s1);
    SuspendCore(s1);
    ScheduleInv(GoToSleep(s1));
  }

  lemma ScanningInv(s: State, s': State)
    requires Inv(s) && s.phase.Suspending? && s' == s.(phase := Scanning)
    ensures Inv(s')
  {
    hide JoinOk, LogOk, PlaceOk, QueueOk;
    Members(s);
    JoinsFrame(s, s');
    SamePlaceOk(s, s');
    SameQueueOk(s, s');
    FiredLog(s, s');
  }

  lemma TimerSetInv(s: State, step: Step)
    requires Inv(s) && Enabled(s, step) && (step.TimerInit? || step.TimerStart?)
    ensures Inv(Next(s, step))
  {
    hide JoinOk, LogOk, PlaceOk, QueueOk;
    var s' := Next(s, step);
    SetTimers(s, s', step);
    hide TimersOk, SleepersOk;
    JoinsFrame(s, s');
    SamePlaceOk(s, s');
    SameQueueOk(s, s');
    FiredLog(s, s');
  }

  lemma SetTimers(s: State, s': State, step: Step)
    requires TimersOk(s) && SleepersOk(s) && Enabled(s, step)
    requires (step.TimerInit? || step.TimerStart?) && s' == Next(s, step)
    ensures TimersOk(s') && SleepersOk(s')
  {
  }

  // ---------------------------------------------------------------- join and finish

  /** `thread_join` on a thread that has not finished. */
  lemma JoinWaitCore(s: State, t: Tid)
    requires Inv(s) && Enabled(s, Join(t)) && CanJoin(s, t) && !s.threads[t].state.Zombie?
    ensures
      var s1 := SetThread(s, t, s.threads[t].(joiner := Some(s.current)));
      Core(GoToSleep(SetPc(s1, s1.current, Joining(t))))
  {
    var s1 := SetThread(s, t, s.threads[t].(joiner := Some(s.current)));
    var s2 := SetPc(s1, s.current, Joining(t));
    var s3 := GoToSleep(s2);
    JoinWaitJoins(s, t, s3);
    JoinWaitQueue(s, t, s3);
    JoinWaitRest(s, t, s3);
  }

  lemma JoinWaitQueue(s: State, t: Tid, s3: State)
    requires QueueOk(s) && PlaceOk(s) && Enabled(s, Join(t)) && t != s.current && s.threads[s.current].state.Running?
    requires s3 == GoToSleep(SetPc(SetThread(s, t, s.threads[t].(joiner := Some(s.current))), s.current, Joining(t)))
    ensures QueueOk(s3) && PlaceOk(s3)
  {
    hide QueueOk, PlaceOk;
    JoinSetQueue(s, t);
    SleepQueue(SetPc(SetThread(s, t, s.threads[t].(joiner := Some(s.current))), s.current, Joining(t)));
    JoinWaitPlaces(s, t, s3);
  }

  lemma JoinWaitPlaces(s: State, t: Tid, s3: State)
    requires PlaceOk(s) && t in s.threads && s.current in s.threads && t != s.current
    requires s.threads[s.current].state.Running?
    requires s3 == GoToSleep(SetPc(SetThread(s, t, s.threads[t].(joiner := Some(s.current))), s.current, Joining(t)))
    ensures PlaceOk(s3)
  {
  }

  lemma JoinSetQueue(s: State, t: Tid)
    requires QueueOk(s) && Enabled(s, Join(t)) && t != s.current && s.threads[s.current].state.Running?
    ensures
      var s1 := SetPc(SetThread(s, t, s.threads[t].(joiner := Some(s.current))), s.current, Joining(t));
      QueueOk(s1) && s1.current != IDLE_THREAD
  {
  }

  lemma JoinWaitRest(s: State, t: Tid, s3: State)
    requires TimersOk(s) && SleepersOk(s) && LogOk(s) && t in s.threads && s.current in s.threads && t != s.current
    requires s.threads[s.current].pc.Free? && !s.threads[s.current].state.Zombie?
    requires s3 == GoToSleep(SetPc(SetThread(s, t, s.threads[t].(joiner := Some(s.current))), s.current, Joining(t)))
    ensures TimersOk(s3) && SleepersOk(s3) && LogOk(s3)
  {
    hide LogOk, TimersOk, SleepersOk;
    LogFrame(s, s3);
    SameTimersOk(s, s3);
    JoinWaitOwners(s, t, s3);
  }

  lemma JoinWaitOwners(s: State, t: Tid, s3: State)
    requires SleepersOk(s) && t in s.threads && s.current in s.threads && t != s.current
    requires s.threads[s.current].pc.Free?
    requires s3 == GoToSleep(SetPc(SetThread(s, t, s.threads[t].(joiner := Some(s.current))), s.current, Joining(t)))
    ensures SleepersOk(s3)
  {
    OwnersFrame(s, s3);
  }

  lemma JoinWaitJoins(s: State, t: Tid, s': State)
    requires JoinOk(s) && t in s.threads && s.current in s.threads && t != s.current && s.threads[t].joiner.None?
    requires !s.threads[t].state.Zombie? && s.threads[s.current].pc.Free? && !s.threads[s.current].state.Zombie?
    requires s'.threads == s.threads[t := s.threads[t].(joiner := Some(s.current))]
      [s.current := s.threads[s.current].(pc := Joining(t), state := Sleeping)]
    ensures JoinOk(s')
  {
    forall a | a in s'.threads && s'.threads[a].pc.Joining?
      ensures
        var u := s'.threads[a].pc.target;
        && u in s'.threads && s'.threads[u].joiner == Some(a)
        && (s'.threads[a].state.Sleeping? <==> !s'.threads[u].state.Zombie?)
    {
      if a != s.current {
        assert s.threads[a].pc == s'.threads[a].pc;
      }
    }
  }

  /** The history after `thread_join` has delivered the value of a finished thread. */
  lemma ReapLog(s: State, t: Tid, s': State)
    requires LogOk(s) && t in s.threads && s.threads[t].state.Zombie? && s.current != t
    requires s'.log == Reap(s, t).log && s'.threads.Keys == s.threads.Keys - {t}
    requires forall u :: u in s'.threads ==>
      s'.threads[u].retval == s.threads[u].retval && (s'.threads[u].state.Zombie? <==> s.threads[u].state.Zombie?)
    ensures LogOk(s')
  {
    var n, v := |s.log|, s.threads[t].retval;
    assert s'.log[..n] == s.log && s'.log[n] == Joined(s.current, t, v) && s'.log[n + 1] == Destroyed(t);
    assert forall e :: e in s.log ==> e in s'.log;
    NotYetJoined(s, t);
    ReapEvents(s, t, s');
  }

  lemma ReapEvents(s: State, t: Tid, s': State)
    requires LogOk(s) && t in s.threads && s.threads[t].state.Zombie? && s.current != t
    requires s'.log == s.log + [Joined(s.current, t, s.threads[t].retval), Destroyed(t)]
    requires s'.threads.Keys == s.threads.Keys - {t}
    requires forall u :: u in s'.threads ==>
      s'.threads[u].retval == s.threads[u].retval && (s'.threads[u].state.Zombie? <==> s.threads[u].state.Zombie?)
    ensures forall i :: 0 <= i < |s'.log| ==> EventOk(s', i)
  {
    hide EventOk;
    forall i | 0 <= i < |s'.log|
      ensures EventOk(s', i)
    {
      if i < |s.log| {
        ReapEvent(s, t, s', i);
      } else {
        ReapedEvent(s, t, s', i);
      }
    }
  }

  lemma ReapedEvent(s: State, t: Tid, s': State, i: nat)
    requires t in s.threads && t !in s'.threads && Finished(t, s.threads[t].retval) in s.log && |s.log| <= i < |s'.log|
    requires s'.log == s.log + [Joined(s.current, t, s.threads[t].retval), Destroyed(t)]
    ensures EventOk(s', i)
  {
    assert s'.log[..|s.log|] == s.log;
  }

  /** What an older event says is still true. */
  lemma ReapEvent(s: State, t: Tid, s': State, i: nat)
    requires i < |s.log| && EventOk(s, i) && t in s.threads && s'.threads.Keys == s.threads.Keys - {t}
    requires s'.log == s.log + [Joined(s.current, t, s.threads[t].retval), Destroyed(t)]
    requires forall u :: u in s'.threads ==>
      s'.threads[u].retval == s.threads[u].retval && (s'.threads[u].state.Zombie? <==> s.threads[u].state.Zombie?)
    ensures EventOk(s', i)
  {
    assert s'.log[..i] == s.log[..i] && s'.log[i] == s.log[i];
    assert s'.log[|s.log| + 1] == Destroyed(t);
    assert forall e :: e in s.log ==> e in s'.log;
  }

  lemma NotYetJoined(s: State, t: Tid)
    requires LogOk(s) && t in s.threads
    ensures forall i :: 0 <= i < |s.log| && s.log[i].Joined? ==> s.log[i].thread != t
  {
    forall i | 0 <= i < |s.log| && s.log[i].Joined?
      ensures s.log[i].thread != t
    {
      assert EventOk(s, i) && EventOk(s, i + 1);
    }
  }

  /** `thread_join` on a finished thread. */
  lemma JoinNowInv(s: State, t: Tid)
    requires Inv(s) && Enabled(s, Join(t)) && CanJoin(s, t) && s.threads[t].state.Zombie?
    ensures Inv(Reap(s, t))
  {
    var s' := Reap(s, t);
    hide LogOk, JoinOk, QueueOk, TimersOk, SleepersOk;
    Members(s);
    NoJoiner(s, t);
    ReapIs(s, t);
    hide Enabled, CanJoin, Reap;
    ReapLog(s, t, s');
    ReapQueue(s, t, s');
    ReapJoins(s, t, s');
    SameTimersOk(s, s');
    OwnersFrame(s, s');
  }

  lemma ReapIs(s: State, t: Tid)
    requires t in s.threads
    ensures
      var s' := Reap(s, t);
      && s'.threads == s.threads - {t} && s'.runq == s.runq && s'.current == s.current && SameTimers(s, s')
      && s'.log == s.log + [Joined(s.current, t, s.threads[t].retval), Destroyed(t)]
  {
  }

  lemma NoJoiner(s: State, t: Tid)
    requires s.current in s.threads && t in s.threads && CanJoin(s, t)
    ensures t != s.current && s.threads[t].joiner.None?
  {
  }

  lemma ReapQueue(s: State, t: Tid, s': State)
    requires QueueOk(s) && PlaceOk(s) && t in s.threads && s.threads[t].state.Zombie? && s.current != t
    requires s'.runq == s.runq && s'.current == s.current && s'.threads.Keys == s.threads.Keys - {t}
    requires forall u :: u in s'.threads ==> s'.threads[u].state == s.threads[u].state
    requires forall u :: u in s'.threads && u != s.current ==> s'.threads[u].pc == s.threads[u].pc
    requires
      || s'.threads[s.current].pc == s.threads[s.current].pc
      || (s.current != IDLE_THREAD && s'.threads[s.current].pc.Free?)
    ensures QueueOk(s')
  {
  }

  lemma ReapJoins(s: State, t: Tid, s': State)
    requires JoinOk(s) && PlaceOk(s) && t in s.threads && s.threads[t].state.Zombie?
    requires s.current != t && s.current in s.threads
    requires s.threads[t].joiner.None? || s.threads[t].joiner == Some(s.current)
    requires s'.threads == (if s.threads[t].joiner.None? then s.threads - {t}
                            else (s.threads - {t})[s.current := s.threads[s.current].(pc := Free)])
    ensures JoinOk(s')
  {
  }

  /** `thread_join` goes on only when the other thread has finished. */
  lemma JoinAgainInv(s: State)
    requires Inv(s) && Enabled(s, JoinAgain)
    ensures s.threads[s.threads[s.current].pc.target].state.Zombie?
    ensures Inv(Next(s, JoinAgain))
  {
    JoinAgainTarget(s);
    JoinAgainRest(s);
    JoinAgainIs(s);
    hide LogOk, JoinOk, QueueOk, PlaceOk, TimersOk, SleepersOk, Next, Enabled, Reap;
    var t := s.threads[s.current].pc.target;
    var s' := Next(s, JoinAgain);
    ReapLog(s, t, s');
    ReapQueue(s, t, s');
    ReapJoins(s, t, s');
  }

  lemma JoinAgainIs(s: State)
    requires s.current in s.threads && Enabled(s, JoinAgain)
    ensures
      var s', t := Next(s, JoinAgain), s.threads[s.current].pc.target;
      && t in s.threads && t != s.current && s.threads[s.current].pc.Joining?
      && s'.threads == (s.threads - {t})[s.current := s.threads[s.current].(pc := Free)]
      && s'.runq == s.runq && s'.current == s.current && s'.log == Reap(s, t).log
  {
  }

  lemma JoinAgainTarget(s: State)
    requires Inv(s) && Enabled(s, JoinAgain)
    ensures s.current != IDLE_THREAD && s.threads[s.threads[s.current].pc.target].state.Zombie?
    ensures s.threads[s.threads[s.current].pc.target].joiner == Some(s.current)
  {
  }

  lemma JoinAgainRest(s: State)
    requires Inv(s) && Enabled(s, JoinAgain) && s.threads[s.threads[s.current].pc.target].state.Zombie?
    ensures PlaceOk(Next(s, JoinAgain)) && TimersOk(Next(s, JoinAgain)) && SleepersOk(Next(s, JoinAgain))
  {
    hide LogOk, JoinOk, QueueOk, TimersOk, SleepersOk, PlaceOk;
    JoinAgainPlaces(s);
    SameTimersOk(s, Next(s, JoinAgain));
    OwnersFrame(s, Next(s, JoinAgain));
  }

  lemma JoinAgainPlaces(s: State)
    requires PlaceOk(s) && Enabled(s, JoinAgain) && s.threads[s.threads[s.current].pc.target].state.Zombie?
    ensures PlaceOk(Next(s, JoinAgain)) && s.threads[s.threads[s.current].pc.target].pc.Done?
  {
  }

  /** The state in which a finishing thread calls `schedule`. */
  function Ended(s: State, value: int): State
    requires Enabled(s, Finish(value))
  {
    var me := s.threads[s.current];
    var s1 := SetThread(s, s.current, me.(state := Zombie, retval := value, pc := Done))
      .(runq := Remove(s.runq, s.current), log := s.log + [Finished(s.current, value)]);
    if me.joiner.Some? then WakeThread(s1, me.joiner.value) else s1
  }

  lemma FinishInv(s: State, value: int)
    requires Inv(s) && Enabled(s, Finish(value))
    ensures Inv(Next(s, Finish(value)))
  {
    EndedCore(s, value);
    ScheduleInv(Ended(s, value));
  }

  lemma EndedCore(s: State, value: int)
    requires Inv(s) && Enabled(s, Finish(value))
    ensures Core(Ended(s, value))
  {
    EndedQueue(s, value);
    EndedJoins(s, value);
    EndedLog(s, value);
    EndedRest(s, value);
  }

  lemma EndedRest(s: State, value: int)
    requires Inv(s) && Enabled(s, Finish(value))
    ensures PlaceOk(Ended(s, value)) && TimersOk(Ended(s, value)) && SleepersOk(Ended(s, value))
  {
    hide LogOk, QueueOk, TimersOk, JoinOk, SleepersOk, PlaceOk;
    EndedPlaces(s, value);
    SameTimersOk(s, Ended(s, value));
    OwnersFrame(s, Ended(s, value));
  }

  lemma EndedPlaces(s: State, value: int)
    requires PlaceOk(s) && Enabled(s, Finish(value))
    ensures PlaceOk(Ended(s, value))
  {
  }

  lemma EndedQueue(s: State, value: int)
    requires QueueOk(s) && Enabled(s, Finish(value))
    ensures QueueOk(Ended(s, value))
  {
    RemoveFacts(s.runq, s.current);
  }

  /** The joiner of the finishing thread, if there is one, wakes up. */
  lemma EndedJoins(s: State, value: int)
    requires QueueOk(s) && PlaceOk(s) && JoinOk(s) && Enabled(s, Finish(value)) && s.threads[s.current].state.Running?
    ensures JoinOk(Ended(s, value))
  {
    hide Ended, QueueOk, PlaceOk;
    forall a | a in Ended(s, value).threads && Ended(s, value).threads[a].pc.Joining?
      ensures
        var s' := Ended(s, value);
        var u := s'.threads[a].pc.target;
        && u in s'.threads && s'.threads[u].joiner == Some(a)
        && (s'.threads[a].state.Sleeping? <==> !s'.threads[u].state.Zombie?)
    {
      EndedJoiner(s, value, a);
    }
    forall t | t in Ended(s, value).threads && Ended(s, value).threads[t].joiner.Some?
      ensures
        var s' := Ended(s, value);
        var a := s'.threads[t].joiner.value;
        a in s'.threads && s'.threads[a].pc == Joining(t)
    {
      EndedJoined(s, value, t);
    }
  }

  lemma EndedJoiner(s: State, value: int, a: Tid)
    requires PlaceOk(s) && JoinOk(s) && Enabled(s, Finish(value)) && s.threads[s.current].state.Running?
    requires a in Ended(s, value).threads && Ended(s, value).threads[a].pc.Joining?
    ensures
      var s' := Ended(s, value);
      var u := s'.threads[a].pc.target;
      && u in s'.threads && s'.threads[u].joiner == Some(a)
      && (s'.threads[a].state.Sleeping? <==> !s'.threads[u].state.Zombie?)
  {
    assert s.threads[a].pc == Ended(s, value).threads[a].pc;
  }

  lemma EndedJoined(s: State, value: int, t: Tid)
    requires JoinOk(s) && Enabled(s, Finish(value)) && s.threads[s.current].state.Running?
    requires t in Ended(s, value).threads && Ended(s, value).threads[t].joiner.Some?
    ensures
      var s' := Ended(s, value);
      var a := s'.threads[t].joiner.value;
      a in s'.threads && s'.threads[a].pc == Joining(t)
  {
    assert s.threads[t].joiner == Ended(s, value).threads[t].joiner;
  }

  lemma EndedLog(s: State, value: int)
    requires LogOk(s) && Enabled(s, Finish(value)) && s.threads[s.current].state.Running?
    ensures LogOk(Ended(s, value))
  {
    FinishLog(s, value, Ended(s, value));
  }

  lemma FinishLog(s: State, value: int, s': State)
    requires LogOk(s) && s.current in s.threads && s.threads[s.current].state.Running?
    requires s'.log == s.log + [Finished(s.current, value)] && s'.threads.Keys == s.threads.Keys
    requires forall t :: t in s.threads ==>
      if t == s.current then s'.threads[t].state.Zombie? && s'.threads[t].retval == value
      else s'.threads[t].retval == s.threads[t].retval && (s'.threads[t].state.Zombie? <==> s.threads[t].state.Zombie?)
    ensures LogOk(s')
  {
    var n := |s.log|;
    assert s'.log[..n] == s.log && s'.log[n] == Finished(s.current, value);
    assert forall e :: e in s.log ==> e in s'.log;
    forall i | 0 <= i < |s'.log|
      ensures EventOk(s', i) && (i < n ==> !Repeats(s'.log[i], s'.log[n]))
    {
      if i < n {
        assert EventOk(s, i) && s'.log[..i] == s.log[..i] && s'.log[i] == s.log[i];
      }
    }
  }
}

