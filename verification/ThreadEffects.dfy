/** What each step does to the variables of the kernel, said of the variables themselves. Where
    the invariant holds, this is all that a step does.
    Models kernel/proc/thread.c, kernel/sched/sched.c and kernel/time/timer.c. */
module ThreadEffects {
  import opened Basics
  import opened ThreadSpec
  import opened ThreadSafety

  /** The first thread of `q` goes to its end and runs; the others are as in `m`. */
  ghost predicate Runs(m: map<Tid, Thread>, q: seq<Tid>, now: State) {
    && q != [] && q[0] in m
    && now.current == q[0] && now.runq == q[1..] + [q[0]]
    && now.threads == m[q[0] := m[q[0]].(state := Running)]
  }

  /** Timers, time and history are as before. */
  ghost predicate OnlyThreads(was: State, now: State) {
    now == was.(threads := now.threads, runq := now.runq, current := now.current)
  }

  // ---------------------------------------------------------------- threads

  ghost predicate Created(was: State, child: Tid, now: State) {
    && now == was.(threads := now.threads, runq := was.runq + [child])
    && now.threads == was.threads[child := Thread(Ready, None, 0, Free)]
  }

  ghost predicate Yielded(was: State, now: State) {
    var c := was.current;
    && c in was.threads && OnlyThreads(was, now)
    && Runs(was.threads[c := was.threads[c].(state := Ready)], was.runq, now)
  }

  /** After a wakeup the thread can run unless it has finished; a sleeping one is ready, at the
      end of the run queue, and nothing else has changed. */
  ghost predicate Woken(was: State, now: State, t: Tid) {
    && t in was.threads && t in now.threads
    && (t in now.runq <==> !now.threads[t].state.Zombie?) && !now.threads[t].state.Sleeping?
    && (if was.threads[t].state.Sleeping?
        then now.threads[t] == was.threads[t].(state := Ready) && now.runq == was.runq + [t]
        else now == was)
    && now == was.(threads := was.threads[t := now.threads[t]], runq := now.runq)
  }

  ghost predicate Suspended(was: State, now: State) {
    var c := was.current;
    && c in was.threads && OnlyThreads(was, now)
    && Runs(was.threads[c := was.threads[c].(state := Sleeping)], Remove(was.runq, c), now)
  }

  /** The current thread sleeps, with its own timer pending for `timeout` jiffies. */
  ghost predicate FellAsleep(was: State, timeout: nat, now: State) {
    var c := was.current;
    var tm := Own(c);
    && c in was.threads && tm in now.timers
    && OnlyThreads(was.(timers := now.timers, pending := was.pending + [tm]), now)
    && Runs(was.threads[c := was.threads[c].(state := Sleeping, pc := Slept)], Remove(was.runq, c), now)
    && now.timers == was.timers[tm := now.timers[tm]]
    && now.timers[tm].expires == was.jiffies + timeout && now.timers[tm].timeout == timeout
    && !now.timers[tm].running
    && (if tm in was.timers
        then now.timers[tm].starts == was.timers[tm].starts + 1 && now.timers[tm].fires == was.timers[tm].fires
        else now.timers[tm].starts == 1 && now.timers[tm].fires == 0)
  }

  /** The current thread is the joiner of `t`, and sleeps in `thread_join`. */
  ghost predicate Waits(was: State, t: Tid, now: State) {
    var c := was.current;
    && c in was.threads && t in was.threads && OnlyThreads(was, now)
    && var m := was.threads[t := was.threads[t].(joiner := Some(c))];
       Runs(m[c := m[c].(state := Sleeping, pc := Joining(t))], Remove(was.runq, c), now)
  }

  /** The current thread has got the value of `t`, and `t` is gone. */
  ghost predicate Got(was: State, t: Tid, now: State) {
    var c := was.current;
    && t in was.threads && t != c && c in was.threads
    && now == was.(threads := now.threads, log := was.log + [Joined(c, t, was.threads[t].retval), Destroyed(t)])
    && now.threads == (was.threads - {t})[c := was.threads[c].(pc := Free)]
  }

  /** The current thread ends; its joiner, if there is one, is ready at the end of the queue. */
  ghost predicate Ends(was: State, value: int, now: State) {
    var c := was.current;
    && c in was.threads && OnlyThreads(was.(log := was.log + [Finished(c, value)]), now)
    && var m := was.threads[c := was.threads[c].(state := Zombie, retval := value, pc := Done)];
       match was.threads[c].joiner
       case None => Runs(m, Remove(was.runq, c), now)
       case Some(a) => a in m && Runs(m[a := m[a].(state := Ready)], Remove(was.runq, c) + [a], now)
  }

  // ---------------------------------------------------------------- timers

  ghost predicate HasExpired(s: State, tm: TimerId, jiffies: nat) {
    tm in s.timers && s.timers[tm].expires < jiffies
  }

  /** One jiffy has passed; the timer thread is woken if a pending timer has expired, and the
      current thread gives way when its quantum is used up. */
  ghost predicate Ticked(was: State, quantum: bool, now: State) {
    var wakes := TIMER_THREAD in was.threads && was.threads[TIMER_THREAD].state.Sleeping? &&
      exists tm :: tm in was.pending && HasExpired(was, tm, was.jiffies + 1);
    var m := if wakes then was.threads[TIMER_THREAD := was.threads[TIMER_THREAD].(state := Ready)] else was.threads;
    var q := if wakes then was.runq + [TIMER_THREAD] else was.runq;
    && OnlyThreads(was.(jiffies := was.jiffies + 1), now)
    && (if quantum
        then was.current in m && Runs(m[was.current := m[was.current].(state := Ready)], q, now)
        else now.threads == m && now.runq == q && now.current == was.current)
  }

  /** The handler of the first expired timer of the list runs, and the timer is off the list;
      if there is none, the timer thread is about to sleep. */
  ghost predicate Scanned(was: State, now: State) {
    if forall i :: 0 <= i < |was.pending| ==> !HasExpired(was, was.pending[i], was.jiffies)
    then now == was.(phase := Suspending)
    else exists i ::
      && 0 <= i < |was.pending| && HasExpired(was, was.pending[i], was.jiffies)
      && (forall k :: 0 <= k < i ==> !HasExpired(was, was.pending[k], was.jiffies))
      && HandlerRuns(was, i, now)
  }

  /** The timer at a place of the list is off the list, and its handler runs. */
  ghost predicate HandlerRuns(was: State, i: nat, now: State)
    requires i < |was.pending| && was.pending[i] in was.timers
  {
    var tm := was.pending[i];
    var timer := was.timers[tm];
    now == was.(pending := was.pending[..i] + was.pending[i + 1..], phase := Handling(tm),
                timers := was.timers[tm := timer.(running := true, fires := timer.fires + 1)],
                log := was.log + [Fired(tm, timer.expires, was.jiffies)])
  }

  ghost predicate Handled(was: State, now: State) {
    && was.phase.Handling? && was.phase.timer in was.timers
    && var tm := was.phase.timer;
       now == was.(phase := Scanning, timers := was.timers[tm := was.timers[tm].(running := false)])
  }

  ghost predicate TimerIsSet(was: State, tm: TimerId, timeout: nat, now: State) {
    && tm in now.timers && now == was.(timers := was.timers[tm := now.timers[tm]])
    && now.timers[tm].expires == 0 && now.timers[tm].timeout == timeout && !now.timers[tm].running
    && (if tm in was.timers
        then now.timers[tm].starts == was.timers[tm].starts && now.timers[tm].fires == was.timers[tm].fires
        else now.timers[tm].starts == 0 && now.timers[tm].fires == 0)
  }

  /** The timer comes last in the list, to expire when its timeout is over. */
  ghost predicate TimerIsStarted(was: State, tm: TimerId, now: State) {
    && tm in was.timers && tm in now.timers
    && now == was.(timers := was.timers[tm := now.timers[tm]], pending := was.pending + [tm])
    && now.timers[tm].expires == was.jiffies + was.timers[tm].timeout
    && now.timers[tm].starts == was.timers[tm].starts + 1
    && now.timers[tm].(expires := was.timers[tm].expires, starts := was.timers[tm].starts) == was.timers[tm]
  }

  /** While the handler of the timer runs, the current thread gives way in `timer_destroy`;
      otherwise it goes on, with the timer off the list. */
  ghost predicate TimerIsAwaited(was: State, tm: TimerId, now: State) {
    var c := was.current;
    && c in was.threads && tm in was.timers
    && (if was.timers[tm].running
        then OnlyThreads(was, now) &&
          Runs(was.threads[c := was.threads[c].(state := Ready, pc := Destroying(tm))], was.runq, now)
        else now == was.(threads := was.threads[c := was.threads[c].(pc := Free)], pending := Remove(was.pending, tm)))
  }

  // ---------------------------------------------------------------- every step

  /** What a step does, case by case. */
  ghost predicate Does(was: State, step: Step, now: State) {
    match step
    case Create(child) => Created(was, child, now)
    case Yield => Yielded(was, now)
    case Suspend => Suspended(was, now)
    case Wakeup(t) => Woken(was, now, t)
    case Sleep(timeout) => FellAsleep(was, timeout, now)
    case Awake => TimerIsAwaited(was.(pending := Remove(was.pending, Own(was.current))), Own(was.current), now)
    case TimerInit(tm, timeout) => TimerIsSet(was, tm, timeout, now)
    case TimerStart(tm) => TimerIsStarted(was, tm, now)
    case TimerDestroy(tm) => TimerIsAwaited(was.(pending := Remove(was.pending, tm)), tm, now)
    case DestroyAgain =>
      && was.current in was.threads && was.threads[was.current].pc.Destroying?
      && TimerIsAwaited(was, was.threads[was.current].pc.timer, now)
    case Join(t) =>
      && t in was.threads
      && (if t == was.current || was.threads[t].joiner.Some? then now == was
          else if was.threads[t].state.Zombie? then Got(was, t, now) else Waits(was, t, now))
    case JoinAgain =>
      && was.current in was.threads && was.threads[was.current].pc.Joining?
      && Got(was, was.threads[was.current].pc.target, now)
    case Finish(value) => Ends(was, value, now)
    case Tick(quantum) => Ticked(was, quantum, now)
    case Scan => Scanned(was, now)
    case HandlerReturn => Handled(was, now)
    case TimerSuspend => Suspended(was.(phase := Scanning), now)
  }

  /** The steps of the transition system do just that. */
  lemma StepDoes(s: State, step: Step)
    requires Inv(s) && Enabled(s, step)
    ensures Does(s, step, Next(s, step))
  {
    hide Inv, Next, Enabled, Created, Yielded, Suspended, Woken, FellAsleep, Waits, Got, Ends, Ticked, Scanned, Handled;
    hide TimerIsSet, TimerIsStarted, TimerIsAwaited;
    match step
    case Create(_) => QuickDoes(s, step);
    case Yield => YieldDoes(s);
    case Suspend => SuspendDoes(s, step);
    case Wakeup(t) => WakeDoes(s, t);
    case Sleep(timeout) => SleepDoes(s, timeout);
    case Awake => AwakeDoes(s);
    case TimerInit(_, _) => QuickDoes(s, step);
    case TimerStart(_) => QuickDoes(s, step);
    case TimerDestroy(tm) => DestroyDoes(s, tm);
    case DestroyAgain => AgainDoes(s);
    case Join(t) => JoinDoes(s, t);
    case JoinAgain => JoinAgainDoes(s);
    case Finish(value) => FinishDoes(s, value);
    case Tick(quantum) => TickDoes(s, quantum);
    case Scan => ScanDoes(s);
    case HandlerReturn => QuickDoes(s, step);
    case TimerSuspend => SuspendDoes(s, step);
  }

  /** And no other state is what a step leads to. */
  lemma OnlyNext(s: State, step: Step, now: State)
    requires Inv(s) && Enabled(s, step)
    ensures Does(s, step, now) <==> now == Next(s, step)
  {
    hide Inv, Enabled, Next, Does;
    StepDoes(s, step);
    if Does(s, step, now) {
      OneResult(s, step, now, Next(s, step));
    }
  }

  lemma OneResult(s: State, step: Step, a: State, b: State)
    requires Does(s, step, a) && Does(s, step, b)
    ensures a == b
  {
    if step.Scan? {
      OneScan(s, a, b);
    }
    hide Scanned;
  }

  lemma OneScan(s: State, a: State, b: State)
    requires Scanned(s, a) && Scanned(s, b)
    ensures a == b
  {
    hide HasExpired;
    if exists i :: 0 <= i < |s.pending| && HasExpired(s, s.pending[i], s.jiffies) {
      hide Scanned, HandlerRuns;
      var i := ScanPlace(s, a);
      var j := ScanPlace(s, b);
      assert i == j;
      OneHandler(s, i, a, b);
    }
  }

  lemma OneHandler(s: State, i: nat, a: State, b: State)
    requires i < |s.pending| && s.pending[i] in s.timers && HandlerRuns(s, i, a) && HandlerRuns(s, i, b)
    ensures a == b
  {
  }

  /** The place of the timer that is taken. */
  lemma ScanPlace(s: State, now: State) returns (i: nat)
    requires Scanned(s, now) && exists i :: 0 <= i < |s.pending| && HasExpired(s, s.pending[i], s.jiffies)
    ensures i < |s.pending| && HasExpired(s, s.pending[i], s.jiffies) && s.pending[i] in s.timers
    ensures forall k :: 0 <= k < i ==> !HasExpired(s, s.pending[k], s.jiffies)
    ensures HandlerRuns(s, i, now)
  {
    assert forall i :: 0 <= i < |s.pending| && HasExpired(s, s.pending[i], s.jiffies) ==> s.pending[i] in s.timers;
    hide HasExpired;
    i :| && 0 <= i < |s.pending| && HasExpired(s, s.pending[i], s.jiffies)
         && (forall k :: 0 <= k < i ==> !HasExpired(s, s.pending[k], s.jiffies))
         && HandlerRuns(s, i, now);
  }

  lemma QuickDoes(s: State, step: Step)
    requires Enabled(s, step)
    requires step.Create? || step.TimerInit? || step.TimerStart? || step.HandlerReturn?
    ensures Does(s, step, Next(s, step))
  {
  }

  /** `schedule`, when the current thread runs, and when it does not run any more. */
  lemma ScheduleRuns(s: State)
    requires s.current in s.threads && s.runq != [] && forall t :: t in s.runq ==> t in s.threads
    ensures OnlyThreads(s, Schedule(s))
    ensures
      var c := s.threads[s.current];
      Runs(if c.state.Running? then s.threads[s.current := c.(state := Ready)] else s.threads, s.runq, Schedule(s))
  {
    assert s.runq[0] in s.runq;
  }

  lemma YieldDoes(s: State)
    requires Inv(s) && Enabled(s, Yield)
    ensures Yielded(s, Next(s, Yield))
  {
    hide PlaceOk, JoinOk, TimersOk, SleepersOk, LogOk;
    assert IDLE_THREAD in s.runq;
    hide Schedule, Runs, QueueOk;
    ScheduleRuns(s);
  }

  /** What the invariant says of the run queue, and of the queue without the current thread. */
  lemma QueueFacts(s: State)
    requires Inv(s)
    ensures s.current in s.threads && s.runq != [] && forall t :: t in s.runq ==> t in s.threads
    ensures s.threads[s.current].state.Running? && TIMER_THREAD in s.threads
    ensures s.current != IDLE_THREAD ==>
      Remove(s.runq, s.current) != [] && forall t :: t in Remove(s.runq, s.current) ==> t in s.threads
  {
    hide PlaceOk, JoinOk, TimersOk, SleepersOk, LogOk;
    RemoveFacts(s.runq, s.current);
    assert IDLE_THREAD in s.runq;
    assert s.current != IDLE_THREAD ==> IDLE_THREAD in Remove(s.runq, s.current);
  }

  lemma SuspendDoes(s: State, step: Step)
    requires Inv(s) && Enabled(s, step) && (step.Suspend? || step.TimerSuspend?)
    ensures Does(s, step, Next(s, step))
  {
    QueueFacts(s);
    hide Inv, Schedule, Runs;
    ScheduleRuns(GoToSleep(if step.Suspend? then s else s.(phase := Scanning)));
  }

  lemma WakeDoes(s: State, t: Tid)
    requires Inv(s) && Enabled(s, Wakeup(t))
    ensures Woken(s, Next(s, Wakeup(t)), t)
  {
    hide PlaceOk, JoinOk, TimersOk, SleepersOk, LogOk;
  }

  lemma SleepDoes(s: State, timeout: nat)
    requires Inv(s) && Enabled(s, Sleep(timeout))
    ensures FellAsleep(s, timeout, Next(s, Sleep(timeout)))
  {
    hide *;
    QueueFacts(s);
    SleepEnabled(s, timeout);
    var s2 := SleepCalls(s, timeout);
    ScheduleRuns(s2);
    Asleep(s, timeout, s2, Schedule(s2));
  }

  lemma SleepEnabled(s: State, timeout: nat)
    requires Enabled(s, Sleep(timeout))
    ensures s.current in s.threads && s.current != IDLE_THREAD
  {
  }

  /** The state with the timer of the current thread started, when the thread is off the queue. */
  ghost predicate Starting(s: State, timeout: nat, s2: State) {
    var c, tm := s.current, Own(s.current);
    && c in s.threads && tm in s2.timers
    && s2 == s.(threads := s.threads[c := s.threads[c].(state := Sleeping, pc := Slept)], runq := Remove(s.runq, c),
                timers := s.timers[tm := s2.timers[tm]], pending := s.pending + [tm])
    && s2.timers[tm] == (if tm in s.timers
       then Timer(s.jiffies + timeout, timeout, false, s.timers[tm].starts + 1, s.timers[tm].fires)
       else Timer(s.jiffies + timeout, timeout, false, 1, 0))
  }

  lemma Asleep(s: State, timeout: nat, s2: State, now: State)
    requires Starting(s, timeout, s2) && OnlyThreads(s2, now) && Runs(s2.threads, s2.runq, now)
    ensures FellAsleep(s, timeout, now)
  {
    hide Runs, Remove;
  }

  lemma SleepCalls(s: State, timeout: nat) returns (s2: State)
    requires Enabled(s, Sleep(timeout)) && s.current in s.threads && Remove(s.runq, s.current) != []
    requires forall t :: t in Remove(s.runq, s.current) ==> t in s.threads
    ensures Starting(s, timeout, s2) && s2.current in s2.threads && !s2.threads[s2.current].state.Running?
    ensures s2.runq != [] && (forall t :: t in s2.runq ==> t in s2.threads)
    ensures Next(s, Sleep(timeout)) == Schedule(s2)
  {
    var c, tm := s.current, Own(s.current);
    var s1 := GoToSleep(SetPc(s, c, Slept));
    assert s1.threads == s.threads[c := s.threads[c].(state := Sleeping, pc := Slept)];
    NewlyStarted(s1, tm, timeout);
    s2 := StartTimer(InitTimer(s1, tm, timeout), tm);
    hide Schedule, InitTimer, StartTimer, Remove;
  }

  lemma NewlyStarted(s: State, tm: TimerId, timeout: nat)
    ensures
      var s2 := StartTimer(InitTimer(s, tm, timeout), tm);
      && s2 == s.(timers := s2.timers, pending := s.pending + [tm])
      && tm in s2.timers && s2.timers == s.timers[tm := s2.timers[tm]]
      && s2.timers[tm] == (if tm in s.timers
         then Timer(s.jiffies + timeout, timeout, false, s.timers[tm].starts + 1, s.timers[tm].fires)
         else Timer(s.jiffies + timeout, timeout, false, 1, 0))
  {
  }

  /** The inner loop of `timer_destroy`. */
  lemma AwaitDoes(s: State, tm: TimerId)
    requires s.current in s.threads && s.threads[s.current].state.Running? && tm in s.timers
    requires s.runq != [] && forall t :: t in s.runq ==> t in s.threads
    ensures TimerIsAwaited(s, tm, AwaitHandler(s, tm))
  {
    hide Schedule, Runs;
    if s.timers[tm].running {
      var c := s.current;
      var s1 := SetPc(s, c, Destroying(tm));
      assert s1.threads[c := s1.threads[c].(state := Ready)] ==
        s.threads[c := s.threads[c].(state := Ready, pc := Destroying(tm))];
      ScheduleRuns(s1);
    }
  }

  lemma AwakeDoes(s: State)
    requires Inv(s) && Enabled(s, Awake)
    ensures TimerIsAwaited(s.(pending := Remove(s.pending, Own(s.current))), Own(s.current), Next(s, Awake))
  {
    QueueFacts(s);
    hide Inv, AwaitHandler, TimerIsAwaited;
    AwaitDoes(s.(pending := Remove(s.pending, Own(s.current))), Own(s.current));
  }

  lemma DestroyDoes(s: State, tm: TimerId)
    requires Inv(s) && Enabled(s, TimerDestroy(tm))
    ensures TimerIsAwaited(s.(pending := Remove(s.pending, tm)), tm, Next(s, TimerDestroy(tm)))
  {
    QueueFacts(s);
    hide Inv, AwaitHandler, TimerIsAwaited;
    AwaitDoes(s.(pending := Remove(s.pending, tm)), tm);
  }

  lemma AgainDoes(s: State)
    requires Inv(s) && Enabled(s, DestroyAgain)
    ensures Does(s, DestroyAgain, Next(s, DestroyAgain))
  {
    QueueFacts(s);
    hide Inv, AwaitHandler, TimerIsAwaited;
    AwaitDoes(s, s.threads[s.current].pc.timer);
  }

  lemma JoinDoes(s: State, t: Tid)
    requires Inv(s) && Enabled(s, Join(t))
    ensures Does(s, Join(t), Next(s, Join(t)))
  {
    QueueFacts(s);
    var c := s.current;
    if CanJoin(s, t) {
      if s.threads[t].state.Zombie? {
        ReapDoes(s, t);
      } else {
        hide Inv, Schedule, Runs;
        var m := s.threads[t := s.threads[t].(joiner := Some(c))];
        var s1 := GoToSleep(SetPc(SetThread(s, t, m[t]), c, Joining(t)));
        assert s1.threads == m[c := m[c].(state := Sleeping, pc := Joining(t))];
        ScheduleRuns(s1);
      }
    }
  }

  lemma ReapDoes(s: State, t: Tid)
    requires t in s.threads && s.current in s.threads && t != s.current && s.threads[s.current].pc.Free?
    ensures Got(s, t, Reap(s, t))
  {
    var c := s.current;
    assert s.threads[c].(pc := Free) == s.threads[c];
    assert s.threads - {t} == (s.threads - {t})[c := s.threads[c]];
  }

  lemma JoinAgainDoes(s: State)
    requires Inv(s) && Enabled(s, JoinAgain)
    ensures Does(s, JoinAgain, Next(s, JoinAgain))
  {
  }

  lemma FinishDoes(s: State, value: int)
    requires Inv(s) && Enabled(s, Finish(value))
    ensures Ends(s, value, Next(s, Finish(value)))
  {
    QueueFacts(s);
    var c := s.current;
    if s.threads[c].joiner.Some? {
      JoinerSleeps(s);
    }
    FinishCalls(s, value);
    EndedIs(s, value);
    hide Inv, Schedule, Runs, Next, Enabled, Ended, Remove;
    ScheduleRuns(Ended(s, value));
  }

  lemma FinishCalls(s: State, value: int)
    requires Inv(s) && Enabled(s, Finish(value))
    ensures
      var s1 := Ended(s, value);
      && s1.current in s1.threads && s1.runq != [] && (forall t :: t in s1.runq ==> t in s1.threads)
      && Next(s, Finish(value)) == Schedule(s1)
  {
    QueueFacts(s);
    if s.threads[s.current].joiner.Some? {
      JoinerSleeps(s);
    }
    hide Inv, Schedule, Remove;
  }

  /** The state in which `schedule` is called. */
  lemma EndedIs(s: State, value: int)
    requires Inv(s) && Enabled(s, Finish(value))
    ensures
      var c, s1 := s.current, Ended(s, value);
      var m := s.threads[c := s.threads[c].(state := Zombie, retval := value, pc := Done)];
      && s1 == s.(threads := s1.threads, runq := s1.runq, log := s.log + [Finished(c, value)])
      && c in s1.threads && s1.threads[c].state.Zombie?
      && match s.threads[c].joiner
         case None => s1.threads == m && s1.runq == Remove(s.runq, c)
         case Some(a) =>
           a in m && s1.threads == m[a := m[a].(state := Ready)] && s1.runq == Remove(s.runq, c) + [a]
  {
    if s.threads[s.current].joiner.Some? {
      JoinerSleeps(s);
    }
    hide Inv, Remove;
  }

  /** The joiner of a thread that has not finished sleeps. */
  lemma JoinerSleeps(s: State)
    requires Inv(s) && s.threads[s.current].joiner.Some? && s.threads[s.current].pc.Free?
    ensures
      var a := s.threads[s.current].joiner.value;
      a in s.threads && a != s.current && s.threads[a].state.Sleeping?
  {
    hide TimersOk, SleepersOk, LogOk;
    assert s.current in s.threads;
  }

  lemma TickDoes(s: State, quantum: bool)
    requires Inv(s) && Enabled(s, Tick(quantum))
    ensures Ticked(s, quantum, Next(s, Tick(quantum)))
  {
    hide *;
    QueueFacts(s);
    TickCalls(s, quantum);
    var s1 := RunTimers(s.(jiffies := s.jiffies + 1));
    RunTimersWakes(s, s1);
    if quantum {
      ScheduleRuns(s1);
    }
    TickRuns(s, quantum, s1, Next(s, Tick(quantum)));
  }

  lemma TickCalls(s: State, quantum: bool)
    requires Enabled(s, Tick(quantum)) && TIMER_THREAD in s.threads
    ensures
      var s1 := RunTimers(s.(jiffies := s.jiffies + 1));
      && s1.current in s1.threads && s1.current == s.current && (forall t :: t in s1.runq ==> t in s1.threads)
      && (s.runq != [] ==> s1.runq != [])
      && Next(s, Tick(quantum)) == if quantum then Schedule(s1) else s1
  {
    hide Schedule, Expired;
  }

  /** The state after `timers_run`. */
  ghost predicate HasRunTimers(s: State, s1: State) {
    && TIMER_THREAD in s.threads
    && var wakes := s.threads[TIMER_THREAD].state.Sleeping? &&
         exists tm :: tm in s.pending && HasExpired(s, tm, s.jiffies + 1);
       s1 == s.(jiffies := s.jiffies + 1, runq := if wakes then s.runq + [TIMER_THREAD] else s.runq,
                threads := if wakes
                  then s.threads[TIMER_THREAD := s.threads[TIMER_THREAD].(state := Ready)] else s.threads)
  }

  lemma RunTimersWakes(s: State, s1: State)
    requires TIMER_THREAD in s.threads && s1 == RunTimers(s.(jiffies := s.jiffies + 1))
    ensures HasRunTimers(s, s1)
    ensures s.current in s.threads && s.threads[s.current].state.Running? ==>
      s1.threads[s.current] == s.threads[s.current]
  {
    hide Expired;
    ExpiredFacts(s.timers, s.pending, s.jiffies + 1);
  }

  lemma TickRuns(s: State, quantum: bool, s1: State, now: State)
    requires HasRunTimers(s, s1) && s.current in s1.threads && s.current == s1.current
    requires if quantum
      then OnlyThreads(s1, now) && Runs(s1.threads[s.current := s1.threads[s.current].(state := Ready)], s1.runq, now)
      else now == s1
    ensures Ticked(s, quantum, now)
  {
    hide Runs, HasExpired;
  }

  lemma ScanDoes(s: State)
    requires Inv(s) && Enabled(s, Scan)
    ensures Scanned(s, Next(s, Scan))
  {
    PendingApart(s);
    hide Inv, Expired, HandlerRuns;
    ExpiredFacts(s.timers, s.pending, s.jiffies);
    if Expired(s.timers, s.pending, s.jiffies).Some? {
      var i := ExpiredFirst(s.timers, s.pending, s.jiffies);
      ScanTakes(s, i);
      assert HasExpired(s, s.pending[i], s.jiffies);
    }
  }

  lemma PendingApart(s: State)
    requires Inv(s)
    ensures NoRepeats(s.pending)
  {
  }

  lemma ScanTakes(s: State, i: nat)
    requires Enabled(s, Scan) && NoRepeats(s.pending) && i < |s.pending| && s.pending[i] in s.timers
    requires Expired(s.timers, s.pending, s.jiffies) == Some(s.pending[i])
    ensures HandlerRuns(s, i, Next(s, Scan))
  {
    hide Expired, NoRepeats, Remove;
    RemoveAt(s.pending, i);
  }
}
