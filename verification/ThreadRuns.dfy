/** Theorems about whole runs of the thread system. */
module ThreadRuns {
  import opened Basics
  import opened ThreadSpec
  import opened ThreadSafety
  import opened ThreadEffects

  /** The state in which the first thread begins: `bsp_start` has created the timer thread,
      the idle thread and the main thread, and switched to the last one. */
  function Boot(): State {
    State(map[TIMER_THREAD := Thread(Ready, None, 0, Free), IDLE_THREAD := Thread(Ready, None, 0, Free),
              MAIN_THREAD := Thread(Running, None, 0, Free)],
          [TIMER_THREAD, IDLE_THREAD, MAIN_THREAD], MAIN_THREAD, map[], [], 0, Scanning, [])
  }

  lemma BootInv()
    ensures Inv(Boot())
  {
    BootQueue();
    hide QueueOk;
  }

  lemma BootQueue()
    ensures QueueOk(Boot())
  {
    var q: seq<Tid> := [TIMER_THREAD, IDLE_THREAD, MAIN_THREAD];
    assert q[0] == TIMER_THREAD && q[1] == IDLE_THREAD && q[2] == MAIN_THREAD;
  }

  /** Every step keeps the invariant. */
  lemma StepInv(s: State, step: Step)
    requires Inv(s) && Enabled(s, step)
    ensures Inv(Next(s, step))
  {
    hide Core;
    match step
    case Create(child) => CreateInv(s, child);
    case Yield => YieldInv(s);
    case Suspend => SuspendInv(s);
    case Wakeup(t) => WakeupInv(s, t);
    case Sleep(timeout) => SleepInv(s, timeout);
    case Awake => AwakeInv(s);
    case TimerInit(_, _) => TimerSetInv(s, step);
    case TimerStart(_) => TimerSetInv(s, step);
    case TimerDestroy(tm) => TimerDestroyInv(s, tm);
    case DestroyAgain => DestroyAgainInv(s);
    case Join(t) => JoinInv(s, t);
    case JoinAgain => JoinAgainInv(s);
    case Finish(value) => FinishInv(s, value);
    case Tick(quantum) => TickInv(s, quantum);
    case Scan => ScanInv(s);
    case HandlerReturn => HandlerReturnInv(s);
    case TimerSuspend => TimerSuspendInv(s);
  }

  lemma SuspendInv(s: State)
    requires Inv(s) && Enabled(s, Suspend)
    ensures Inv(Next(s, Suspend))
  {
    SuspendCore(s);
    ScheduleInv(GoToSleep(s));
  }

  lemma JoinInv(s: State, t: Tid)
    requires Inv(s) && Enabled(s, Join(t))
    ensures Inv(Next(s, Join(t)))
  {
    if CanJoin(s, t) {
      if s.threads[t].state.Zombie? {
        JoinNowInv(s, t);
      } else {
        JoinWaitCore(s, t);
        var s1 := SetThread(s, t, s.threads[t].(joiner := Some(s.current)));
        ScheduleInv(GoToSleep(SetPc(s1, s1.current, Joining(t))));
      }
    }
  }

  /** Taking a timer off the list is safe when no thread sleeps until it fires. */
  lemma UnlistedInv(s: State, tm: TimerId)
    requires Inv(s) && (tm.Own? && tm.tid in s.threads ==> !s.threads[tm.tid].state.Sleeping?)
    ensures Inv(s.(pending := Remove(s.pending, tm)))
    ensures tm !in Remove(s.pending, tm)
  {
    hide JoinOk, LogOk, PlaceOk, QueueOk, TimersOk, SleepersOk;
    var s' := s.(pending := Remove(s.pending, tm));
    Members(s);
    JoinsFrame(s, s');
    SamePlaceOk(s, s');
    SameQueueOk(s, s');
    FiredLog(s, s');
    UnlistedTimers(s, tm);
    UnlistedOwners(s, tm);
  }

  lemma UnlistedTimers(s: State, tm: TimerId)
    requires TimersOk(s)
    ensures TimersOk(s.(pending := Remove(s.pending, tm))) && tm !in Remove(s.pending, tm)
    ensures forall x :: x in Remove(s.pending, tm) <==> x in s.pending && x != tm
  {
    hide Remove;
    RemoveFacts(s.pending, tm);
  }

  lemma UnlistedOwners(s: State, tm: TimerId)
    requires SleepersOk(s) && (tm.Own? && tm.tid in s.threads ==> !s.threads[tm.tid].state.Sleeping?)
    requires forall x :: x in Remove(s.pending, tm) <==> x in s.pending && x != tm
    ensures SleepersOk(s.(pending := Remove(s.pending, tm)))
  {
    hide Remove;
  }

  lemma TimerDestroyInv(s: State, tm: TimerId)
    requires Inv(s) && Enabled(s, TimerDestroy(tm))
    ensures Inv(Next(s, TimerDestroy(tm)))
    ensures !s.timers[tm].running ==> !Active(Next(s, TimerDestroy(tm)), tm)
  {
    UnlistedInv(s, tm);
    AwaitInv(s.(pending := Remove(s.pending, tm)), tm);
  }

  lemma AwakeInv(s: State)
    requires Inv(s) && Enabled(s, Awake)
    ensures Inv(Next(s, Awake))
    ensures !s.timers[Own(s.current)].running ==> !Active(Next(s, Awake), Own(s.current))
  {
    UnlistedInv(s, Own(s.current));
    AwaitInv(s.(pending := Remove(s.pending, Own(s.current))), Own(s.current));
  }

  lemma DestroyAgainInv(s: State)
    requires Inv(s) && Enabled(s, DestroyAgain)
    ensures Inv(Next(s, DestroyAgain))
    ensures var tm := s.threads[s.current].pc.timer;
      !s.timers[tm].running ==> !Active(Next(s, DestroyAgain), tm)
  {
    AwaitInv(s, s.threads[s.current].pc.timer);
  }

  /** A thread that is switched to inside a kernel function can always go on there. */
  lemma Continues(s: State)
    requires Inv(s)
    ensures
      var pc := s.threads[s.current].pc;
      && (pc.Joining? ==> Enabled(s, JoinAgain))
      && (pc.Slept? ==> Enabled(s, Awake))
      && (pc.Destroying? ==> Enabled(s, DestroyAgain))
      && (pc.Free? ==> InOwnCode(s) || Enabled(s, Scan) || Enabled(s, TimerSuspend))
      && !pc.Done?
  {
  }

  // ---------------------------------------------------------------- runs

  /** `states` are the states between the steps of a run from boot on. */
  ghost predicate IsRun(states: seq<State>, steps: seq<Step>) {
    && |states| == |steps| + 1 && states[0] == Boot()
    && forall i :: 0 <= i < |steps| ==> Enabled(states[i], steps[i]) && states[i + 1] == Next(states[i], steps[i])
  }

  lemma {:induction false} RunInv(states: seq<State>, steps: seq<Step>, i: nat)
    requires IsRun(states, steps) && i < |states|
    ensures Inv(states[i])
  {
    if i == 0 {
      BootInv();
    } else {
      RunInv(states, steps, i - 1);
      assert states[i - 1 + 1] == Next(states[i - 1], steps[i - 1]);
      StepInv(states[i - 1], steps[i - 1]);
    }
  }

  lemma RunStep(states: seq<State>, steps: seq<Step>, i: nat)
    requires IsRun(states, steps) && i < |steps|
    ensures |states| == |steps| + 1 && Inv(states[i]) && Inv(states[i + 1])
    ensures Enabled(states[i], steps[i]) && states[i + 1] == Next(states[i], steps[i])
  {
    RunInv(states, steps, i);
    RunInv(states, steps, i + 1);
  }

  /** In every state of every run: the run queue holds exactly the ready and the running
      threads, once each, and the one running thread is the current one. */
  lemma RunQueueExact(states: seq<State>, steps: seq<Step>, i: nat)
    requires IsRun(states, steps) && i < |states|
    ensures
      var s := states[i];
      && NoRepeats(s.runq) && s.runq != []
      && (forall t :: t in s.runq <==> t in s.threads && (s.threads[t].state.Ready? || s.threads[t].state.Running?))
      && (forall t :: t in s.threads && (s.threads[t].state.Sleeping? || s.threads[t].state.Zombie?) ==> t !in s.runq)
      && (forall t :: t in s.threads && s.threads[t].state.Running? <==> t == s.current)
  {
    RunInv(states, steps, i);
  }

  // ---------------------------------------------------------------- joins

  /** The thread that a step joins with EOK, and the value it delivers. */
  function JoinResult(s: State, step: Step): Option<(Tid, int)>
    requires Enabled(s, step)
  {
    match step
    case Join(t) => if CanJoin(s, t) && s.threads[t].state.Zombie? then Some((t, s.threads[t].retval)) else None
    case JoinAgain => Some((s.threads[s.current].pc.target, s.threads[s.threads[s.current].pc.target].retval))
    case _ => None
  }

  /** The history only grows; a join with EOK, and only that, adds a `Joined` event and destroys
      a thread, the one that it joins; the end of a thread, and only that, adds a `Finished` event. */
  lemma StepLog(s: State, step: Step)
    requires Inv(s) && Enabled(s, step)
    ensures
      var s' := Next(s, step);
      && Prefix(s.log, s'.log)
      && (forall i :: |s.log| <= i < |s'.log| && s'.log[i].Finished? ==>
           step.Finish? && s'.log[i] == Finished(s.current, step.value))
      && (match JoinResult(s, step)
          case Some((t, v)) =>
            && s'.log == s.log + [Joined(s.current, t, v), Destroyed(t)]
            && t in s.threads && s'.threads.Keys == s.threads.Keys - {t}
          case None =>
            && s.threads.Keys <= s'.threads.Keys
            && forall i :: |s.log| <= i < |s'.log| ==> !s'.log[i].Joined? && !s'.log[i].Destroyed?)
  {
    hide Inv, Next, JoinStep, FinishStep, ScanStep, Enabled;
    StepKeys(s, step);
    if step.Finish? || step.Scan? || step.JoinAgain? || step.Join? {
      EventLog(s, step);
    } else {
      StepLogFrame(s, step);
    }
  }

  /** The events that the other steps add. */
  lemma EventLog(s: State, step: Step)
    requires Enabled(s, step) && (step.Finish? || step.Scan? || step.JoinAgain? || step.Join?)
    ensures
      var log := Next(s, step).log;
      match JoinResult(s, step)
      case Some((t, v)) => log == s.log + [Joined(s.current, t, v), Destroyed(t)] && !step.Finish?
      case None =>
        if step.Finish? then log == s.log + [Finished(s.current, step.value)]
        else log == s.log || (step.Scan? && |log| == |s.log| + 1 && log[..|s.log|] == s.log && log[|s.log|].Fired?)
  {
  }

  lemma StepKeys(s: State, step: Step)
    requires Inv(s) && Enabled(s, step)
    ensures match JoinResult(s, step)
      case Some((t, _)) => t in s.threads && Next(s, step).threads.Keys == s.threads.Keys - {t}
      case None => s.threads.Keys <= Next(s, step).threads.Keys
  {
    hide PlaceOk, TimersOk, SleepersOk, LogOk, QueueOk, JoinOk, JoinStep, FinishStep, Next, JoinResult;
    match step
    case Join(t) => JoinKeys(s, t);
    case JoinAgain => JoinAgainKeys(s);
    case Finish(value) => FinishKeys(s, value);
    case _ => OtherKeys(s, step);
  }

  lemma JoinKeys(s: State, t: Tid)
    requires Enabled(s, Join(t))
    ensures match JoinResult(s, Join(t))
      case Some((u, _)) => u in s.threads && Next(s, Join(t)).threads.Keys == s.threads.Keys - {u}
      case None => Next(s, Join(t)).threads.Keys == s.threads.Keys
  {
  }

  lemma JoinAgainKeys(s: State)
    requires Enabled(s, JoinAgain)
    ensures match JoinResult(s, JoinAgain)
      case Some((u, _)) => u in s.threads && Next(s, JoinAgain).threads.Keys == s.threads.Keys - {u}
      case None => false
  {
  }

  lemma FinishKeys(s: State, value: int)
    requires Enabled(s, Finish(value))
    ensures JoinResult(s, Finish(value)) == None && Next(s, Finish(value)).threads.Keys == s.threads.Keys
  {
  }

  lemma OtherKeys(s: State, step: Step)
    requires Enabled(s, step) && !step.Join? && !step.JoinAgain? && !step.Finish?
    ensures JoinResult(s, step) == None && s.threads.Keys <= Next(s, step).threads.Keys
  {
    hide JoinStep, FinishStep;
  }

  /** No thread is destroyed twice. */
  lemma DestroyedOnce(states: seq<State>, steps: seq<Step>, i: nat, m: nat, n: nat)
    requires IsRun(states, steps) && i < |states| && m < n < |states[i].log|
    requires states[i].log[m].Destroyed? && states[i].log[n].Destroyed?
    ensures states[i].log[m].thread != states[i].log[n].thread
  {
    RunInv(states, steps, i);
    OneDestruction(states[i], m, n);
  }

  lemma OneDestruction(s: State, m: nat, n: nat)
    requires Inv(s) && m < n < |s.log| && s.log[m].Destroyed? && s.log[n].Destroyed?
    ensures s.log[m].thread != s.log[n].thread
  {
    hide QueueOk, PlaceOk, JoinOk, TimersOk, SleepersOk;
    assert EventOk(s, m) && EventOk(s, n);
    assert !Repeats(s.log[m - 1], s.log[n - 1]);
  }

  lemma StepLogFrame(s: State, step: Step)
    requires Inv(s) && Enabled(s, step)
    requires !step.Finish? && !step.Scan? && !step.JoinAgain? && !step.Join?
    ensures Next(s, step).log == s.log && JoinResult(s, step) == None
  {
    hide PlaceOk, JoinOk, TimersOk, SleepersOk, LogOk, QueueOk;
  }

  ghost predicate Prefix(a: seq<Event>, b: seq<Event>) {
    |a| <= |b| && b[..|a|] == a
  }

  lemma PrefixTransitive(a: seq<Event>, b: seq<Event>, c: seq<Event>)
    requires Prefix(a, b) && Prefix(b, c)
    ensures Prefix(a, c)
  {
    assert c[..|b|][..|a|] == c[..|a|];
  }

  lemma RunLog(states: seq<State>, steps: seq<Step>, i: nat)
    requires IsRun(states, steps) && i < |steps|
    ensures i + 1 < |states| && Inv(states[i]) && Inv(states[i + 1]) && Enabled(states[i], steps[i])
    ensures Prefix(states[i].log, states[i + 1].log)
    ensures JoinResult(states[i], steps[i]).Some? ==>
      var (t, v) := JoinResult(states[i], steps[i]).value;
      |states[i].log| < |states[i + 1].log| && states[i + 1].log[|states[i].log|] == Joined(states[i].current, t, v)
  {
    hide Inv, JoinResult;
    RunStep(states, steps, i);
    StepLog(states[i], steps[i]);
  }

  lemma {:induction false} LogGrows(states: seq<State>, steps: seq<Step>, i: nat, j: nat)
    requires IsRun(states, steps) && i <= j <= |steps| && |states| == |steps| + 1
    ensures Prefix(states[i].log, states[j].log)
    decreases j - i
  {
    hide IsRun, Inv, Enabled;
    if i < j {
      LogGrows(states, steps, i, j - 1);
      RunLog(states, steps, j - 1);
      PrefixTransitive(states[i].log, states[j - 1].log, states[j].log);
    }
  }

  /** At most one `thread_join` of a thread returns EOK. */
  lemma JoinsOnce(states: seq<State>, steps: seq<Step>, i: nat, j: nat)
    requires IsRun(states, steps) && i < j < |steps| && |states| == |steps| + 1
    requires JoinResult(states[i], steps[i]).Some? && JoinResult(states[j], steps[j]).Some?
    ensures JoinResult(states[i], steps[i]).value.0 != JoinResult(states[j], steps[j]).value.0
  {
    hide IsRun, Inv, Enabled, JoinResult, Prefix, Repeats;
    RunLog(states, steps, i);
    RunLog(states, steps, j);
    LogGrows(states, steps, i + 1, j);
    NeverRepeats(states[j + 1]);
    var n, m := |states[i].log|, |states[j].log|;
    PrefixAt(states[i + 1].log, states[j].log, n);
    PrefixAt(states[j].log, states[j + 1].log, n);
    RepeatsJoined(states[j + 1].log[n], states[j + 1].log[m]);
  }

  lemma PrefixAt(a: seq<Event>, b: seq<Event>, n: nat)
    requires Prefix(a, b) && n < |a|
    ensures n < |b| && b[n] == a[n]
  {
    assert b[..|a|][n] == b[n];
  }

  lemma RepeatsJoined(e: Event, f: Event)
    requires e.Joined? && f.Joined? && !Repeats(e, f)
    ensures e.thread != f.thread
  {
  }

  lemma NeverRepeats(s: State)
    requires Inv(s)
    ensures forall i, j :: 0 <= i < j < |s.log| ==> !Repeats(s.log[i], s.log[j])
  {
    hide QueueOk, PlaceOk, JoinOk, TimersOk, SleepersOk;
  }

  /** It does so only after the thread has called `thread_finish`, with the value that this
      call has given. */
  lemma JoinAfterFinish(states: seq<State>, steps: seq<Step>, i: nat) returns (j: nat)
    requires IsRun(states, steps) && i < |steps| && JoinResult(states[i], steps[i]).Some?
    ensures j < i && steps[j] == Finish(JoinResult(states[i], steps[i]).value.1)
    ensures states[j].current == JoinResult(states[i], steps[i]).value.0
  {
    var (t, v) := JoinResult(states[i], steps[i]).value;
    RunStep(states, steps, i);
    JoinedHasFinished(states[i], steps[i]);
    j := FinishedBy(states, steps, i, t, v);
  }

  lemma JoinedHasFinished(s: State, step: Step)
    requires Inv(s) && Enabled(s, step) && JoinResult(s, step).Some?
    ensures Finished(JoinResult(s, step).value.0, JoinResult(s, step).value.1) in s.log
  {
    if step.JoinAgain? {
      JoinAgainTarget(s);
    }
    hide QueueOk, PlaceOk, JoinOk, TimersOk, SleepersOk;
  }

  lemma {:induction false} FinishedBy(states: seq<State>, steps: seq<Step>, i: nat, t: Tid, v: int) returns (j: nat)
    requires IsRun(states, steps) && i < |states| && Finished(t, v) in states[i].log
    ensures j < i && steps[j] == Finish(v) && states[j].current == t
  {
    hide IsRun, Inv, Enabled, Next, JoinResult, Prefix;
    StartsEmpty(states, steps);
    RunStep(states, steps, i - 1);
    StepLog(states[i - 1], steps[i - 1]);
    var k := WhereAdded(states[i - 1].log, states[i].log, Finished(t, v));
    if k < |states[i - 1].log| {
      j := FinishedBy(states, steps, i - 1, t, v);
    } else {
      j := i - 1;
    }
  }

  lemma StartsEmpty(states: seq<State>, steps: seq<Step>)
    requires IsRun(states, steps)
    ensures |states| == |steps| + 1 && states[0].log == [] && states[0].pending == []
  {
  }

  lemma WhereAdded(a: seq<Event>, b: seq<Event>, e: Event) returns (k: nat)
    requires Prefix(a, b) && e in b
    ensures k < |b| && b[k] == e && (k < |a| ==> e in a)
  {
    k :| 0 <= k < |b| && b[k] == e;
    assert k < |a| ==> b[..|a|][k] == a[k];
  }

  /** Whether `thread_join` of `t` has to wait. */
  predicate MustWait(s: State, t: Tid) {
    t in s.threads && t != s.current && s.threads[t].joiner.None? && !s.threads[t].state.Zombie?
  }

  /** A step of another thread does not move a thread that has not finished. */
  lemma PlaceKept(s: State, step: Step, c: Tid)
    requires Inv(s) && Enabled(s, step) && c in s.threads && c != s.current && !s.threads[c].state.Zombie?
    ensures c in Next(s, step).threads && Next(s, step).threads[c].pc == s.threads[c].pc
  {
    if step.JoinAgain? {
      JoinAgainTarget(s);
    }
    hide Inv, Next;
    StepDoes(s, step);
    DoesKeep(s, step, Next(s, step), c);
  }

  lemma DoesKeep(s: State, step: Step, s': State, c: Tid)
    requires Enabled(s, step) && Does(s, step, s') && c in s.threads && c != s.current && !s.threads[c].state.Zombie?
    requires step.JoinAgain? ==> s.threads[s.threads[s.current].pc.target].state.Zombie?
    ensures c in s'.threads && s'.threads[c].pc == s.threads[c].pc
  {
    hide Scanned, Handled, TimerIsSet, TimerIsStarted, Ends, Waits, Got, Enabled;
    if step.Scan? || step.HandlerReturn? || step.TimerInit? || step.TimerStart? {
      TimersOnly(s, step, s');
    } else if step.Join? || step.JoinAgain? || step.Finish? {
      JoinsKeep(s, step, s', c);
    } else if step.Create? {
      NewChild(s, step);
    }
  }

  lemma NewChild(s: State, step: Step)
    requires Enabled(s, step) && step.Create?
    ensures step.child !in s.threads
  {
  }

  lemma JoinsKeep(s: State, step: Step, s': State, c: Tid)
    requires Does(s, step, s') && (step.Join? || step.JoinAgain? || step.Finish?)
    requires c in s.threads && c != s.current && !s.threads[c].state.Zombie?
    requires step.JoinAgain? && s.current in s.threads && s.threads[s.current].pc.Joining? ==>
      s.threads[s.current].pc.target in s.threads ==> s.threads[s.threads[s.current].pc.target].state.Zombie?
    ensures c in s'.threads && s'.threads[c].pc == s.threads[c].pc
  {
  }

  lemma TimersOnly(s: State, step: Step, s': State)
    requires Does(s, step, s') && (step.Scan? || step.HandlerReturn? || step.TimerInit? || step.TimerStart?)
    ensures s'.threads == s.threads
  {
  }

  lemma WaitsInJoin(s: State, t: Tid)
    requires Inv(s) && Enabled(s, Join(t)) && MustWait(s, t)
    ensures
      var s' := Next(s, Join(t));
      && s.current in s'.threads && t in s'.threads && s'.current != s.current
      && s'.threads[s.current].pc == Joining(t) && s'.threads[s.current].state.Sleeping?
      && s'.threads[t].joiner == Some(s.current) && s.current !in s'.runq
  {
    QueueFacts(s);
    RemoveOfQueue(s);
    hide Inv, Next, Remove, Enabled;
    StepDoes(s, Join(t));
    assert Waits(s, t, Next(s, Join(t)));
    hide Does;
  }

  lemma RemoveOfQueue(s: State)
    requires Inv(s)
    ensures s.current !in Remove(s.runq, s.current)
  {
    RemoveFacts(s.runq, s.current);
  }

  lemma {:induction false} StillJoining(states: seq<State>, steps: seq<Step>, k: nat, j: nat, c: Tid, t: Tid)
    requires IsRun(states, steps) && k <= j < |states| == |steps| + 1
    requires c in states[k].threads && states[k].threads[c].pc == Joining(t)
    requires forall n :: k <= n < j ==> states[n].current != c
    ensures c in states[j].threads && states[j].threads[c].pc == Joining(t)
    decreases j - k
  {
    hide IsRun, Inv, Enabled, Next;
    if k < j {
      StillJoining(states, steps, k, j - 1, c, t);
      RunStep(states, steps, j - 1);
      NotDone(states[j - 1], c);
      PlaceKept(states[j - 1], steps[j - 1], c);
    }
  }

  lemma NotDone(s: State, c: Tid)
    requires Inv(s) && c in s.threads && !s.threads[c].pc.Done?
    ensures !s.threads[c].state.Zombie?
  {
  }

  /** A caller of `thread_join` that has to wait does not run before the thread has finished. */
  lemma JoinerWaits(states: seq<State>, steps: seq<Step>, k: nat, j: nat, t: Tid) returns (m: nat)
    requires IsRun(states, steps) && k < j < |states| == |steps| + 1
    requires steps[k] == Join(t) && MustWait(states[k], t) && states[j].current == states[k].current
    ensures k < m < j && steps[m].Finish? && states[m].current == t
  {
    hide IsRun, Inv, Enabled, Next;
    var c := states[k].current;
    RunStep(states, steps, k);
    WaitsInJoin(states[k], t);
    var n := k + 1;
    while states[n].current != c
      invariant k < n <= j && forall i :: k < i < n ==> states[i].current != c
      decreases j - n
    {
      n := n + 1;
    }
    StillJoining(states, steps, k + 1, n, c, t);
    RunInv(states, steps, n);
    var v := JoinedIsLogged(states[n], t);
    m := FinishedBy(states, steps, n, t, v);
    if m < k {
      FinishBefore(states, steps, m, k, t, v);
    }
  }

  /** A thread that goes on in `thread_join` finds the other one finished. */
  lemma JoinedIsLogged(s: State, t: Tid) returns (v: int)
    requires Inv(s) && s.threads[s.current].pc == Joining(t)
    ensures Finished(t, v) in s.log
  {
    Continues(s);
    JoinAgainTarget(s);
    v := s.threads[t].retval;
    hide QueueOk, PlaceOk, JoinOk, TimersOk, SleepersOk;
  }

  /** A thread that has finished, and exists, is a zombie. */
  lemma FinishBefore(states: seq<State>, steps: seq<Step>, m: nat, k: nat, t: Tid, v: int)
    requires IsRun(states, steps) && m < k < |states| == |steps| + 1 && t in states[k].threads
    requires steps[m] == Finish(v) && states[m].current == t
    ensures states[k].threads[t].state.Zombie?
  {
    hide IsRun, Inv, Enabled, Next;
    RunStep(states, steps, m);
    EventLog(states[m], steps[m]);
    LogGrows(states, steps, m + 1, k);
    RunInv(states, steps, k);
    var n := |states[m].log|;
    PrefixAt(states[m + 1].log, states[k].log, n);
    ZombieIsLogged(states[k], n);
  }

  lemma ZombieIsLogged(s: State, n: nat)
    requires Inv(s) && n < |s.log| && s.log[n].Finished? && s.log[n].thread in s.threads
    ensures s.threads[s.log[n].thread].state.Zombie?
  {
    hide QueueOk, PlaceOk, JoinOk, TimersOk, SleepersOk;
    assert EventOk(s, n);
  }

  // ---------------------------------------------------------------- timers

  /** A step that makes a timer pending, or initializes it. */
  predicate Touches(s: State, step: Step, tm: TimerId) {
    match step
    case TimerStart(x) => x == tm
    case TimerInit(x, _) => x == tm
    case Sleep(_) => tm == Own(s.current)
    case _ => false
  }

  /** `timer_destroy` of timer `tm` returns in this step. */
  predicate DestroyReturns(s: State, step: Step, tm: TimerId)
    requires Enabled(s, step)
  {
    match step
    case TimerDestroy(x) => x == tm && !s.timers[tm].running
    case Awake => tm == Own(s.current) && !s.timers[tm].running
    case DestroyAgain => tm == s.threads[s.current].pc.timer && !s.timers[tm].running
    case _ => false
  }

  /** When `timer_destroy` returns, the timer is neither pending nor running. */
  lemma DestroyedIsInactive(s: State, step: Step, tm: TimerId)
    requires Inv(s) && Enabled(s, step) && DestroyReturns(s, step, tm)
    ensures !Active(Next(s, step), tm) && tm in Next(s, step).timers && !Next(s, step).timers[tm].running
    ensures Next(s, step).current == s.current && Next(s, step).threads[s.current].pc.Free?
  {
    StepInv(s, step);
    match step
    case TimerDestroy(_) => TimerDestroyInv(s, tm);
    case Awake => AwakeInv(s);
    case DestroyAgain => DestroyAgainInv(s);
  }

  /** The events that `b` has more than `a` have nothing to do with timer `tm`. */
  ghost predicate NotFired(a: seq<Event>, b: seq<Event>, tm: TimerId) {
    Prefix(a, b) && forall n :: |a| <= n < |b| && b[n].Fired? ==> b[n].timer != tm
  }

  lemma NotFiredTransitive(a: seq<Event>, b: seq<Event>, c: seq<Event>, tm: TimerId)
    requires NotFired(a, b, tm) && NotFired(b, c, tm)
    ensures NotFired(a, c, tm)
  {
    PrefixTransitive(a, b, c);
    forall n | |a| <= n < |c| && c[n].Fired?
      ensures c[n].timer != tm
    {
      assert n < |b| ==> c[..|b|][n] == b[n];
    }
  }

  ghost predicate Quiet(s: State, timer: Timer, tm: TimerId) {
    tm in s.timers && s.timers[tm] == timer && !Active(s, tm)
  }

  predicate TimerStep(step: Step) {
    step.Sleep? || step.Awake? || step.TimerInit? || step.TimerStart? || step.TimerDestroy? || step.DestroyAgain? ||
    step.Scan? || step.HandlerReturn? || step.TimerSuspend?
  }

  lemma OtherSteps(s: State, step: Step)
    requires Enabled(s, step) && !TimerStep(step)
    ensures SameTimers(s, Next(s, step))
  {
    hide JoinStep, FinishStep;
    if step.Join? {
      JoinTimers(s, step.thread);
    } else if step.Finish? {
      FinishTimers(s, step.value);
    } else if step.Tick? {
      TickTimers(s, step.quantum);
    }
  }

  lemma TickTimers(s: State, quantum: bool)
    requires Enabled(s, Tick(quantum))
    ensures SameTimers(s, Next(s, Tick(quantum)))
  {
  }

  lemma JoinTimers(s: State, t: Tid)
    requires Enabled(s, Join(t))
    ensures SameTimers(s, JoinStep(s, t))
  {
  }

  lemma FinishTimers(s: State, value: int)
    requires Enabled(s, Finish(value))
    ensures SameTimers(s, FinishStep(s, value))
  {
  }

  lemma QuietStep(s: State, step: Step, tm: TimerId)
    requires Inv(s) && Enabled(s, step) && tm in s.timers && Quiet(s, s.timers[tm], tm) && !Touches(s, step, tm)
    ensures Quiet(Next(s, step), s.timers[tm], tm)
  {
    hide QueueOk, PlaceOk, JoinOk, LogOk, SleepersOk, TimersOk;
    if TimerStep(step) {
      QuietTimerStep(s, step, tm);
    } else {
      OtherSteps(s, step);
    }
  }

  lemma QuietTimerStep(s: State, step: Step, tm: TimerId)
    requires Enabled(s, step) && tm in s.timers && Quiet(s, s.timers[tm], tm)
    requires !Touches(s, step, tm) && TimerStep(step)
    ensures Quiet(Next(s, step), s.timers[tm], tm)
  {
    ExpiredFacts(s.timers, s.pending, s.jiffies);
  }

  lemma QuietLog(s: State, step: Step, tm: TimerId)
    requires Inv(s) && Enabled(s, step) && tm !in s.pending
    ensures NotFired(s.log, Next(s, step).log, tm)
  {
    hide Inv, Enabled, Next, JoinResult, Prefix;
    StepLog(s, step);
    FiresAreLogged(s, step);
    ExpiredFacts(s.timers, s.pending, s.jiffies);
  }

  /** From then on, unless it is started again, nobody writes the timer and it does not fire. */
  lemma {:induction false} StaysQuiet(states: seq<State>, steps: seq<Step>, i: nat, j: nat, tm: TimerId)
    requires IsRun(states, steps) && i <= j < |states| == |steps| + 1
    requires tm in states[i].timers && !Active(states[i], tm)
    requires forall k :: i <= k < j ==> !Touches(states[k], steps[k], tm)
    ensures Quiet(states[j], states[i].timers[tm], tm)
    ensures NotFired(states[i].log, states[j].log, tm)
    decreases j - i
  {
    hide IsRun, Inv, Enabled, Next, NotFired, Quiet;
    if i < j {
      StaysQuiet(states, steps, i, j - 1, tm);
      QuietOnce(states, steps, j - 1, states[i].timers[tm], tm);
      NotFiredTransitive(states[i].log, states[j - 1].log, states[j].log, tm);
    } else {
      QuietNow(states[i], tm);
    }
  }

  lemma QuietNow(s: State, tm: TimerId)
    requires tm in s.timers && !Active(s, tm)
    ensures Quiet(s, s.timers[tm], tm) && NotFired(s.log, s.log, tm)
  {
  }

  lemma QuietOnce(states: seq<State>, steps: seq<Step>, j: nat, timer: Timer, tm: TimerId)
    requires IsRun(states, steps) && j < |steps| && |states| == |steps| + 1
    requires Quiet(states[j], timer, tm) && !Touches(states[j], steps[j], tm)
    ensures Quiet(states[j + 1], timer, tm) && NotFired(states[j].log, states[j + 1].log, tm)
  {
    hide IsRun, Inv, Enabled, Next, NotFired;
    RunStep(states, steps, j);
    QuietStep(states[j], steps[j], tm);
    QuietLog(states[j], steps[j], tm);
  }

  /** A step that starts a timer: `timer_start`, or its owner in `thread_sleep`. */
  predicate Starts(s: State, step: Step, tm: TimerId) {
    step == TimerStart(tm) || (step.Sleep? && tm == Own(s.current))
  }

  /** A step after which the handler of a timer runs. */
  predicate Fires(s: State, step: Step, tm: TimerId) {
    step == Scan && Enabled(s, step) && Expired(s.timers, s.pending, s.jiffies) == Some(tm)
  }

  /** The `Fired` events of the history are exactly these steps, and they come after `expires`. */
  lemma FiresAreLogged(s: State, step: Step)
    requires Inv(s) && Enabled(s, step)
    ensures
      var s' := Next(s, step);
      && (forall tm :: Fires(s, step, tm) ==>
           && tm in s.timers && s.timers[tm].expires < s.jiffies
           && s'.log == s.log + [Fired(tm, s.timers[tm].expires, s.jiffies)] && s'.phase == Handling(tm))
      && (forall n :: |s.log| <= n < |s'.log| && s'.log[n].Fired? ==> Fires(s, step, s'.log[n].timer))
  {
    hide PlaceOk, JoinOk, TimersOk, SleepersOk, LogOk, QueueOk;
    if !step.Finish? && !step.Scan? && !step.JoinAgain? && !step.Join? {
      StepLogFrame(s, step);
    }
    ExpiredFacts(s.timers, s.pending, s.jiffies);
  }

  /** A timer that has fired is off the list, */
  lemma FiredIsOut(s: State, step: Step, tm: TimerId)
    requires Inv(s) && Enabled(s, step) && Fires(s, step, tm)
    ensures tm in s.pending && tm !in Next(s, step).pending
  {
    hide PlaceOk, JoinOk, SleepersOk, LogOk, QueueOk;
    ExpiredFacts(s.timers, s.pending, s.jiffies);
    RemoveFacts(s.pending, tm);
  }

  /** and stays off it until it is started. */
  lemma StaysOut(s: State, step: Step, tm: TimerId)
    requires Enabled(s, step) && tm !in s.pending && !Starts(s, step, tm)
    ensures tm !in Next(s, step).pending
  {
    if !TimerStep(step) {
      OtherSteps(s, step);
    }
  }

  lemma {:induction false} OutUntilStarted(states: seq<State>, steps: seq<Step>, i: nat, j: nat, tm: TimerId)
    requires IsRun(states, steps) && i <= j < |states| && tm !in states[i].pending
    requires forall k :: i <= k < j ==> !Starts(states[k], steps[k], tm)
    ensures tm !in states[j].pending
    decreases j - i
  {
    if i < j {
      OutUntilStarted(states, steps, i, j - 1, tm);
      RunStep(states, steps, j - 1);
      hide IsRun, Inv;
      StaysOut(states[j - 1], steps[j - 1], tm);
    }
  }

  /** A handler runs at most once for each start: between two firings of a timer it has been
      started again. */
  lemma OneFiringPerStart(states: seq<State>, steps: seq<Step>, i: nat, j: nat, tm: TimerId) returns (k: nat)
    requires IsRun(states, steps) && i < j < |steps| && |states| == |steps| + 1
    requires Fires(states[i], steps[i], tm) && Fires(states[j], steps[j], tm)
    ensures i < k < j && Starts(states[k], steps[k], tm)
  {
    hide Inv, Enabled, Next, Fires;
    RunStep(states, steps, i);
    RunStep(states, steps, j);
    FiredIsOut(states[i], steps[i], tm);
    FiredIsOut(states[j], steps[j], tm);
    if forall k :: i < k < j ==> !Starts(states[k], steps[k], tm) {
      OutUntilStarted(states, steps, i + 1, j, tm);
      assert false;
    }
    k :| i < k < j && Starts(states[k], steps[k], tm);
  }

  /** Before the first firing it has been started, too. */
  lemma FiringIsStarted(states: seq<State>, steps: seq<Step>, j: nat, tm: TimerId) returns (k: nat)
    requires IsRun(states, steps) && j < |steps| && |states| == |steps| + 1 && Fires(states[j], steps[j], tm)
    ensures k < j && Starts(states[k], steps[k], tm)
  {
    RunStep(states, steps, j);
    assert states[0].pending == [];
    hide Inv, Enabled, Next, Fires;
    FiredIsOut(states[j], steps[j], tm);
    if forall k :: 0 <= k < j ==> !Starts(states[k], steps[k], tm) {
      OutUntilStarted(states, steps, 0, j, tm);
      assert false;
    }
    k :| 0 <= k < j && Starts(states[k], steps[k], tm);
  }

  /** A timer that stays on the list expires when it would have expired before. */
  lemma PendingKeeps(s: State, step: Step, tm: TimerId)
    requires Inv(s) && Enabled(s, step) && tm in Next(s, step).pending && !Starts(s, step, tm)
    ensures tm in s.pending && tm in s.timers && tm in Next(s, step).timers
    ensures Next(s, step).timers[tm].expires == s.timers[tm].expires
  {
    hide PlaceOk, JoinOk, SleepersOk, LogOk, QueueOk, Next, TimersOk;
    if tm !in s.pending {
      StaysOut(s, step, tm);
    }
    assert Active(s, tm) && tm in s.timers by {
      PendingIsTimer(s, tm);
    }
    StepDoes(s, step);
    if !TimerStep(step) {
      OtherSteps(s, step);
    } else {
      TimerStepKeeps(s, step, Next(s, step), tm);
    }
  }

  lemma TimerStepKeeps(s: State, step: Step, s': State, tm: TimerId)
    requires Does(s, step, s') && TimerStep(step) && Enabled(s, step) && !Starts(s, step, tm)
    requires tm in s.pending && tm in s.timers
    ensures tm in s'.timers && s'.timers[tm].expires == s.timers[tm].expires
  {
    hide Runs, Enabled;
    match step
    case TimerInit(x, _) => assert x != tm by { NotPending(s, step); }
    case _ =>
  }

  lemma NotPending(s: State, step: Step)
    requires Enabled(s, step) && step.TimerInit?
    ensures step.timer !in s.pending
  {
  }

  lemma {:induction false} ExpiresKept(states: seq<State>, steps: seq<Step>, k: nat, j: nat, tm: TimerId, e: int)
    requires IsRun(states, steps) && k <= j < |states| == |steps| + 1
    requires tm in states[k].pending ==> tm in states[k].timers && states[k].timers[tm].expires == e
    requires forall m :: k <= m < j ==> !Starts(states[m], steps[m], tm)
    ensures tm in states[j].pending ==> tm in states[j].timers && states[j].timers[tm].expires == e
    decreases j - k
  {
    hide IsRun, Inv, Enabled, Next;
    if k < j {
      ExpiresKept(states, steps, k, j - 1, tm, e);
      RunStep(states, steps, j - 1);
      if tm in states[j].pending {
        PendingKeeps(states[j - 1], steps[j - 1], tm);
      }
    }
  }

  /** No handler runs early: more than `timeout` jiffies pass between the start of a timer with
      that timeout, by `timer_start` or in `thread_sleep`, and its firing. */
  lemma FiresAfterTimeout(states: seq<State>, steps: seq<Step>, k: nat, j: nat, tm: TimerId, timeout: nat)
    requires IsRun(states, steps) && k < j < |steps| && |states| == |steps| + 1
    requires
      || (steps[k] == TimerStart(tm) && tm in states[k].timers && states[k].timers[tm].timeout == timeout)
      || (steps[k] == Sleep(timeout) && tm == Own(states[k].current))
    requires Fires(states[j], steps[j], tm) && forall m :: k < m < j ==> !Starts(states[m], steps[m], tm)
    ensures states[j].jiffies > states[k].jiffies + timeout
  {
    hide IsRun, Inv, Enabled, Next, Fires;
    RunStep(states, steps, k);
    RunStep(states, steps, j);
    StartsLater(states[k], steps[k], states[k + 1], tm, timeout);
    ExpiresKept(states, steps, k + 1, j, tm, states[k].jiffies + timeout);
    FiresLate(states[j], steps[j], tm);
  }

  lemma FiresLate(s: State, step: Step, tm: TimerId)
    requires Inv(s) && Enabled(s, step) && Fires(s, step, tm)
    ensures tm in s.pending && tm in s.timers && s.timers[tm].expires < s.jiffies
  {
    hide Inv, Enabled, Fires, Next;
    FiredIsOut(s, step, tm);
    FiresAreLogged(s, step);
  }

  lemma StartsLater(s: State, step: Step, s': State, tm: TimerId, timeout: nat)
    requires Inv(s) && Enabled(s, step) && s' == Next(s, step)
    requires
      || (step == TimerStart(tm) && tm in s.timers && s.timers[tm].timeout == timeout)
      || (step == Sleep(timeout) && tm == Own(s.current))
    ensures tm in s'.timers && s'.timers[tm].expires == s.jiffies + timeout
  {
    hide Runs, Inv, Enabled, Next;
    StepDoes(s, step);
  }

  /** The timeout is the one that the timer has been initialized with. */
  lemma {:induction false} TimeoutKept(states: seq<State>, steps: seq<Step>, i: nat, k: nat, tm: TimerId, timeout: nat)
    requires IsRun(states, steps) && i < k < |states| == |steps| + 1 && steps[i] == TimerInit(tm, timeout)
    requires forall m :: i < m < k ==> !(steps[m].TimerInit? && steps[m].timer == tm)
    ensures tm in states[k].timers && states[k].timers[tm].timeout == timeout
    decreases k - i
  {
    hide IsRun, Inv, Enabled, Next, Does;
    RunStep(states, steps, i);
    InitIsOther(states[i], tm, timeout);
    RunStep(states, steps, k - 1);
    if i < k - 1 {
      TimeoutKept(states, steps, i, k - 1, tm, timeout);
    }
    TimeoutAfter(states[k - 1], steps[k - 1], tm, timeout);
  }

  lemma InitIsOther(s: State, tm: TimerId, timeout: nat)
    requires Enabled(s, TimerInit(tm, timeout))
    ensures tm.Other?
  {
  }

  lemma TimeoutAfter(s: State, step: Step, tm: TimerId, timeout: nat)
    requires Inv(s) && Enabled(s, step) && tm.Other?
    requires if step.TimerInit? && step.timer == tm then step.timeout == timeout
      else tm in s.timers && s.timers[tm].timeout == timeout
    ensures tm in Next(s, step).timers && Next(s, step).timers[tm].timeout == timeout
  {
    hide Runs, Inv, Enabled, Next;
    StepDoes(s, step);
  }

  /** The counters agree, and the running flag is set exactly while the handler runs. */
  lemma FiresAreStarted(states: seq<State>, steps: seq<Step>, i: nat, tm: TimerId, n: nat)
    requires IsRun(states, steps) && i < |states| && tm in states[i].timers && n < |states[i].log|
    ensures states[i].timers[tm].fires <= states[i].timers[tm].starts
    ensures states[i].log[n].Fired? ==> states[i].log[n].expires < states[i].log[n].at
    ensures states[i].timers[tm].running <==> states[i].phase == Handling(tm)
  {
    RunInv(states, steps, i);
    assert EventOk(states[i], n);
  }

  /** No sleeper is forgotten: a thread in `thread_sleep` is in the run queue, or its timer is
      pending, or its handler is running. */
  lemma NoSleeperForgotten(states: seq<State>, steps: seq<Step>, i: nat, t: Tid)
    requires IsRun(states, steps) && i < |states| && t in states[i].threads && states[i].threads[t].pc.Slept?
    ensures
      var s := states[i];
      || t in s.runq
      || Own(t) in s.pending
      || (s.phase == Handling(Own(t)) && Own(t) in s.timers && s.timers[Own(t)].running)
  {
    RunInv(states, steps, i);
    if states[i].threads[t].state.Sleeping? {
      assert Dozes(states[i].threads[t]);
      assert Active(states[i], Own(t));
    }
  }

  /** The handler of a thread's own timer never meets a thread that is gone. */
  lemma SleeperIsThere(states: seq<State>, steps: seq<Step>, i: nat, t: Tid)
    requires IsRun(states, steps) && i < |states| && states[i].phase == Handling(Own(t))
    ensures t in states[i].threads && !states[i].threads[t].pc.Joining? && !states[i].threads[t].pc.Done?
  {
    RunInv(states, steps, i);
    assert Active(states[i], Own(t));
  }

  /** It can always wake the thread, and return after that. */
  lemma HandlerWakes(s: State, t: Tid)
    requires Inv(s) && s.phase == Handling(Own(t)) && s.current == TIMER_THREAD && s.threads[s.current].pc.Free?
    ensures Enabled(s, Wakeup(t)) && Enabled(Next(s, Wakeup(t)), HandlerReturn)
  {
    hide LogOk, PlaceOk;
    Members(s);
    assert Active(s, Own(t));
  }

  /** After a timer interrupt the timer thread can run if any pending timer has expired. */
  lemma TickWakes(s: State, quantum: bool, tm: TimerId)
    requires Inv(s) && Enabled(s, Tick(quantum))
    requires tm in s.pending && (tm in s.timers ==> s.timers[tm].expires < s.jiffies + 1)
    ensures TIMER_THREAD in Next(s, Tick(quantum)).runq
  {
    hide Core, Schedule, WakeThread;
    var s0 := s.(jiffies := s.jiffies + 1);
    LaterCore(s);
    CoreMembers(s0);
    ExpiredFacts(s.timers, s.pending, s.jiffies + 1);
    PendingIsTimer(s, tm);
    TimerThreadRuns(s0);
    ScheduleInv(RunTimers(s0));
    RotateFacts(RunTimers(s0).runq);
  }

  lemma PendingIsTimer(s: State, tm: TimerId)
    requires Core(s) && tm in s.pending
    ensures tm in s.timers
  {
    assert Active(s, tm);
  }

  lemma TimerThreadRuns(s: State)
    requires Core(s) && TIMER_THREAD in s.threads
    ensures !s.threads[TIMER_THREAD].pc.Joining? && TIMER_THREAD in WakeThread(s, TIMER_THREAD).runq
    ensures Core(WakeThread(s, TIMER_THREAD)) && NoRepeats(WakeThread(s, TIMER_THREAD).runq)
  {
    WakeCore(s, TIMER_THREAD);
  }
}
