/** The functions of the thread system, updating the kernel's variables in place. Each method
    that is a step keeps the invariant and does what the transition system says. A function
    that gives up the processor in the middle is two methods: up to the switch, and from
    where the thread is switched to again. The run queue and the list of timers are linked
    lists through the thread and timer structures.
    Models kernel/proc/thread.c, kernel/sched/sched.c and kernel/time/timer.c. */
module KernelThreads {
  import opened Basics
  import opened LinkedRing
  import opened LinkedQueue
  import opened ThreadSpec
  import opened ThreadSafety
  import opened ThreadEffects
  import opened ThreadRuns

  datatype JoinReply = Invalid | Delivered(value: int) | Waiting

  class Kernel {
    var threads: map<Tid, Thread>
    const runnable_list: Queue<Tid>
    var current_thread: Tid
    var timers: map<TimerId, Timer>
    const timers_list: Queue<TimerId>
    var jiffies: nat
    var phase: Phase
    ghost var log: seq<Event>

    ghost function View(): State
      reads this, runnable_list, timers_list
    {
      State(threads, runnable_list.keys, current_thread, timers, timers_list.keys, jiffies, phase, log)
    }

    /** Both lists are linked, apart from each other, through the structures that exist. */
    ghost predicate Linked()
      reads this, runnable_list, runnable_list.Repr, timers_list, timers_list.Repr
    {
      && runnable_list.Valid() && timers_list.Valid() && runnable_list.Repr !! timers_list.Repr
      && runnable_list in runnable_list.Repr && timers_list in timers_list.Repr
      && this !in runnable_list.Repr && this !in timers_list.Repr
      && runnable_list.links.Keys == threads.Keys && timers_list.links.Keys == timers.Keys
    }

    ghost predicate Valid()
      reads this, runnable_list, runnable_list.Repr, timers_list, timers_list.Repr
    {
      Linked() && Inv(View())
    }

    /** The state right after `bsp_start` has switched to the first thread. */
    constructor ()
      ensures runnable_list.keys == [TIMER_THREAD, IDLE_THREAD, MAIN_THREAD] && current_thread == MAIN_THREAD
      ensures timers == map[] && timers_list.keys == [] && jiffies == 0 && phase == Scanning && log == []
      ensures Valid() && View() == Boot() && fresh(runnable_list.Repr) && fresh(timers_list.Repr)
    {
      hide Inv, Queue.Valid;
      var runnable_head := new Link<Tid>(MAIN_THREAD);
      var timers_head := new Link<TimerId>(Own(MAIN_THREAD));
      runnable_list := new Queue(runnable_head);
      timers_list := new Queue(timers_head);
      threads, current_thread, timers, jiffies, phase, log := map[], MAIN_THREAD, map[], 0, Scanning, [];
      new;
      CreateFirst();
      BootInv();
    }

    /** What `bsp_start` does after the lists have been initialized. */
    method CreateFirst()
      requires Linked() && View() == State(map[], [], MAIN_THREAD, map[], [], 0, Scanning, [])
      modifies this, runnable_list.Repr
      ensures Linked() && View() == Boot()
      ensures fresh(runnable_list.Repr - old(runnable_list.Repr)) && timers_list.Repr == old(timers_list.Repr)
    {
      hide Queue.Valid, Kernel.Linked;
      NewThread(TIMER_THREAD);
      NewThread(IDLE_THREAD);
      NewThread(MAIN_THREAD);
      Store(MAIN_THREAD, threads[MAIN_THREAD].(state := Running));
      assert threads == Boot().threads;
    }

    // -------------------------------------------------------------- fields

    /** Writes the fields of a thread structure. */
    method Store(t: Tid, thread: Thread)
      requires Linked() && t in threads
      modifies this`threads
      ensures Linked() && View() == SetThread(old(View()), t, thread)
    {
      hide Queue.Valid;
      threads := threads[t := thread];
    }

    ghost method Record(events: seq<Event>)
      requires Linked()
      modifies this`log
      ensures Linked() && View() == old(View()).(log := old(log) + events)
    {
      hide Queue.Valid;
      log := log + events;
    }

    method SetPhase(next: Phase)
      requires Linked()
      modifies this`phase
      ensures Linked() && View() == old(View()).(phase := next)
    {
      hide Queue.Valid;
      phase := next;
    }

    // -------------------------------------------------------------- sched.c

    method SchedInsert(t: Tid)
      requires Linked() && t in threads && t !in runnable_list.keys
      modifies runnable_list.Repr
      ensures Linked() && View() == old(View()).(runq := old(runnable_list.keys) + [t])
      ensures runnable_list.Repr == old(runnable_list.Repr) && timers_list.Repr == old(timers_list.Repr)
    {
      hide Queue.Valid;
      runnable_list.Append(t);
    }

    method SchedRemove(t: Tid)
      requires Linked() && t in threads
      modifies runnable_list.Repr
      ensures Linked() && View() == old(View()).(runq := Remove(old(runnable_list.keys), t))
      ensures runnable_list.Repr == old(runnable_list.Repr) && timers_list.Repr == old(timers_list.Repr)
    {
      hide Queue.Valid;
      runnable_list.Remove(t);
    }

    /** `thread_switch` */
    method ThreadSwitch(t: Tid)
      requires Linked() && current_thread in threads && t in threads
      modifies this`threads, this`current_thread
      ensures Linked() && Switched(old(View()), View(), t) && runnable_list.keys == old(runnable_list.keys)
      ensures View() == Switch(old(View()), t)
    {
      hide Queue.Valid;
      var current := current_thread;
      if threads[current].state.Running? {
        threads := threads[current := threads[current].(state := Ready)];
      }
      current_thread := t;
      threads := threads[t := threads[t].(state := Running)];
    }

    /** `schedule`: the first thread of the run queue goes to its end and runs. */
    method Reschedule()
      requires Linked() && current_thread in threads
      modifies this`threads, this`current_thread, runnable_list.Repr
      ensures Linked() && View() == Schedule(old(View()))
      ensures runnable_list.Repr == old(runnable_list.Repr) && timers_list.Repr == old(timers_list.Repr)
      ensures old(runnable_list.keys) == [] ==> View() == old(View())
      ensures old(runnable_list.keys) != [] ==>
        var next := old(runnable_list.keys)[0];
        Switched(old(View()), View(), next) && runnable_list.keys == old(runnable_list.keys)[1..] + [next]
    {
      hide Queue.Valid;
      QueuedAreThreads();
      var next := runnable_list.Rotate();
      if next.Some? {
        ThreadSwitch(next.value);
      }
    }

    lemma QueuedAreThreads()
      requires Linked()
      ensures forall t :: t in runnable_list.keys ==> t in threads
      ensures forall tm :: tm in timers_list.keys ==> tm in timers
    {
      hide Queue.Valid;
      runnable_list.Listed();
      timers_list.Listed();
    }

    /** `sched_timer`; `quantum` says whether the current thread has used up its quantum. */
    method SchedTimer(quantum: bool)
      requires Valid()
      modifies this, runnable_list.Repr
      ensures Valid() && Enabled(old(View()), Tick(quantum)) && View() == Next(old(View()), Tick(quantum))
      ensures jiffies == old(jiffies) + 1 && Ticked(old(View()), quantum, View())
      ensures fresh(runnable_list.Repr - old(runnable_list.Repr)) && fresh(timers_list.Repr - old(timers_list.Repr))
    {
      hide Inv, Queue.Valid, Kernel.Linked, Schedule, WakeThread, Expired;
      ghost var s := View();
      JoinersExist(s);
      Later();
      TimersRun();
      if quantum {
        Reschedule();
      }
      StepInv(s, Tick(quantum));
      StepDoes(s, Tick(quantum));
    }

    method Later()
      requires Linked()
      modifies this`jiffies
      ensures Linked() && View() == old(View()).(jiffies := old(jiffies) + 1)
    {
      hide Queue.Valid;
      jiffies := jiffies + 1;
    }

    // -------------------------------------------------------------- timer.c

    /** The search of `timers_run` and of the timer thread for an expired timer. */
    method FindExpired() returns (tm: Option<TimerId>)
      requires Linked()
      ensures tm == Expired(timers, timers_list.keys, jiffies) && (tm.Some? ==> tm.value in timers)
      // the first one of the list that has expired
      ensures forall k :: 0 <= k < |timers_list.keys| ==> timers_list.keys[k] in timers
      ensures tm.Some? ==> exists i ::
        && 0 <= i < |timers_list.keys| && timers_list.keys[i] == tm.value && timers[tm.value].expires < jiffies
        && forall k :: 0 <= k < i ==> timers[timers_list.keys[k]].expires >= jiffies
      ensures tm.None? ==>
        forall k :: 0 <= k < |timers_list.keys| ==> timers[timers_list.keys[k]].expires >= jiffies
    {
      hide Queue.Valid;
      QueuedAreThreads();
      ghost var i := 0;
      var link := timers_list.Begin();
      while link != timers_list.list.head
        invariant timers_list.At(link, i)
        invariant forall k :: 0 <= k < i ==> timers[timers_list.keys[k]].expires >= jiffies
        invariant Expired(timers, timers_list.keys, jiffies) == Expired(timers, timers_list.keys[i..], jiffies)
        decreases |timers_list.keys| - i
      {
        timers_list.Shows(link, i);
        if timers[link.data].expires < jiffies {
          return Some(link.data);
        }
        link := timers_list.Advance(link, i);
        i := i + 1;
      }
      timers_list.Shows(link, i);
      return None;
    }

    /** `timers_run` */
    method TimersRun()
      requires Linked() && TIMER_THREAD in threads && !Lost(View(), TIMER_THREAD)
      modifies this`threads, runnable_list.Repr
      ensures Linked() && View() == RunTimers(old(View())) && current_thread == old(current_thread)
      ensures threads.Keys == old(threads).Keys
      ensures runnable_list.Repr == old(runnable_list.Repr) && timers_list.Repr == old(timers_list.Repr)
    {
      hide Queue.Valid, Kernel.Linked, Expired;
      var expired := FindExpired();
      if expired.Some? {
        Wake(TIMER_THREAD);
      }
    }

    /** The first region of the loop of the timer thread. */
    method TimerScan()
      requires Valid() && Enabled(View(), Scan)
      modifies this, timers_list.Repr
      ensures Valid() && View() == Next(old(View()), Scan)
      ensures Scanned(old(View()), View())
      ensures fresh(runnable_list.Repr - old(runnable_list.Repr)) && fresh(timers_list.Repr - old(timers_list.Repr))
    {
      hide Inv, Queue.Valid, Kernel.Linked, Expired, Scanned;
      StepInv(View(), Scan);
      StepDoes(View(), Scan);
      var expired_timer := FindExpired();
      if expired_timer.Some? {
        TakeTimer(expired_timer.value);
      } else {
        SetPhase(Suspending);
      }
    }

    /** An expired timer leaves the list and is marked as running. */
    method TakeTimer(tm: TimerId)
      requires Linked() && tm in timers
      modifies this, timers_list.Repr
      ensures Linked() && View() == old(View()).(
        pending := Remove(old(timers_list.keys), tm), phase := Handling(tm),
        timers := old(timers)[tm := old(timers[tm]).(running := true, fires := old(timers[tm].fires) + 1)],
        log := old(log) + [Fired(tm, old(timers[tm].expires), jiffies)])
      ensures runnable_list.Repr == old(runnable_list.Repr) && timers_list.Repr == old(timers_list.Repr)
    {
      hide Queue.Valid;
      timers_list.Remove(tm);
      log := log + [Fired(tm, timers[tm].expires, jiffies)];
      timers := timers[tm := timers[tm].(running := true, fires := timers[tm].fires + 1)];
      phase := Handling(tm);
    }

    /** The second region: the handler has returned. */
    method TimerHandled()
      requires Valid() && Enabled(View(), HandlerReturn)
      modifies this
      ensures Valid() && View() == Next(old(View()), HandlerReturn)
      ensures Handled(old(View()), View())
      ensures fresh(runnable_list.Repr - old(runnable_list.Repr)) && fresh(timers_list.Repr - old(timers_list.Repr))
    {
      hide Inv, Queue.Valid, Handled;
      StepInv(View(), HandlerReturn);
      StepDoes(View(), HandlerReturn);
      timers := timers[phase.timer := timers[phase.timer].(running := false)];
      phase := Scanning;
    }

    method TimerThreadSuspend()
      requires Valid() && Enabled(View(), TimerSuspend)
      modifies this, runnable_list.Repr
      ensures Valid() && View() == Next(old(View()), TimerSuspend)
      ensures Suspended(old(View()).(phase := Scanning), View())
      ensures fresh(runnable_list.Repr - old(runnable_list.Repr)) && fresh(timers_list.Repr - old(timers_list.Repr))
    {
      hide Inv, Queue.Valid, Kernel.Linked, Schedule, GoToSleep;
      StepInv(View(), TimerSuspend);
      StepDoes(View(), TimerSuspend);
      SetPhase(Scanning);
      SleepAndSwitch();
    }

    method SetUpTimer(tm: TimerId, timeout: nat)
      requires Linked() && tm !in timers_list.keys
      modifies this`timers, timers_list.Repr
      ensures Linked() && View() == InitTimer(old(View()), tm, timeout)
      ensures runnable_list.Repr == old(runnable_list.Repr) && fresh(timers_list.Repr - old(timers_list.Repr))
    {
      hide Queue.Valid;
      timers_list.Init(tm);
      var (starts, fires) := if tm in timers then (timers[tm].starts, timers[tm].fires) else (0, 0);
      timers := timers[tm := Timer(0, timeout, false, starts, fires)];
    }

    method Activate(tm: TimerId)
      requires Linked() && tm in timers && tm !in timers_list.keys
      modifies this`timers, timers_list.Repr
      ensures Linked() && View() == StartTimer(old(View()), tm)
      ensures runnable_list.Repr == old(runnable_list.Repr) && timers_list.Repr == old(timers_list.Repr)
    {
      hide Queue.Valid;
      var timer := timers[tm];
      timers := timers[tm := timer.(expires := jiffies + timer.timeout, starts := timer.starts + 1)];
      timers_list.Append(tm);
    }

    /** `timer_init_jiffies`, called by a thread for a timer of its own. */
    method TimerInitJiffies(tm: TimerId, timeout: nat)
      requires Valid() && Enabled(View(), TimerInit(tm, timeout))
      modifies this, timers_list.Repr
      ensures Valid() && View() == Next(old(View()), TimerInit(tm, timeout))
      ensures TimerIsSet(old(View()), tm, timeout, View()) && timers[tm].timeout == timeout
      ensures fresh(runnable_list.Repr - old(runnable_list.Repr)) && fresh(timers_list.Repr - old(timers_list.Repr))
    {
      hide Inv, Queue.Valid, Kernel.Linked;
      StepInv(View(), TimerInit(tm, timeout));
      StepDoes(View(), TimerInit(tm, timeout));
      SetUpTimer(tm, timeout);
    }

    /** `timer_start` */
    method TimerStart(tm: TimerId)
      requires Valid() && Enabled(View(), Step.TimerStart(tm))
      modifies this, timers_list.Repr
      ensures Valid() && View() == Next(old(View()), Step.TimerStart(tm))
      ensures TimerIsStarted(old(View()), tm, View())
      ensures timers[tm].expires == old(jiffies) + old(timers[tm].timeout)
      ensures timers[tm].timeout == old(timers[tm].timeout)
      ensures fresh(runnable_list.Repr - old(runnable_list.Repr)) && fresh(timers_list.Repr - old(timers_list.Repr))
    {
      hide Inv, Queue.Valid, Kernel.Linked;
      StepInv(View(), Step.TimerStart(tm));
      StepDoes(View(), Step.TimerStart(tm));
      Activate(tm);
    }

    /** `timer_remove` */
    method TimerRemove(tm: TimerId)
      requires Linked() && tm in timers
      modifies timers_list.Repr
      ensures Linked() && View() == old(View()).(pending := Remove(old(timers_list.keys), tm))
      ensures runnable_list.Repr == old(runnable_list.Repr) && timers_list.Repr == old(timers_list.Repr)
    {
      hide Queue.Valid;
      timers_list.Remove(tm);
    }

    /** The rest of `timer_destroy` from the test of `running` on; `done` when it returns. */
    method Await(tm: TimerId) returns (done: bool)
      requires Linked() && current_thread in threads && tm in timers
      modifies this, runnable_list.Repr, timers_list.Repr
      ensures Linked() && done == !old(timers[tm].running)
      ensures current_thread in old(threads) && (forall t :: t in old(runnable_list.keys) ==> t in old(threads))
      ensures View() == AwaitHandler(old(View()), tm)
      ensures runnable_list.Repr == old(runnable_list.Repr) && timers_list.Repr == old(timers_list.Repr)
    {
      hide Queue.Valid, Kernel.Linked, Schedule;
      QueuedAreThreads();
      if timers[tm].running {
        Store(current_thread, threads[current_thread].(pc := Destroying(tm)));
        Reschedule();
        done := false;
      } else {
        TimerRemove(tm);
        Store(current_thread, threads[current_thread].(pc := Free));
        done := true;
      }
    }

    /** `timer_destroy`, up to its return or its first yield. */
    method TimerDestroy(tm: TimerId) returns (done: bool)
      requires Valid() && Enabled(View(), Step.TimerDestroy(tm))
      modifies this, runnable_list.Repr, timers_list.Repr
      ensures Valid() && View() == Next(old(View()), Step.TimerDestroy(tm))
      ensures done ==> !Active(View(), tm)
      ensures TimerIsAwaited(old(View()).(pending := Remove(old(timers_list.keys), tm)), tm, View())
      ensures done == !old(timers[tm].running)
      ensures fresh(runnable_list.Repr - old(runnable_list.Repr)) && fresh(timers_list.Repr - old(timers_list.Repr))
    {
      hide Inv, Queue.Valid, Kernel.Linked;
      ghost var s := View();
      StepInv(s, Step.TimerDestroy(tm));
      StepDoes(s, Step.TimerDestroy(tm));
      TimerRemove(tm);
      done := Await(tm);
      if done {
        DestroyedIsInactive(s, Step.TimerDestroy(tm), tm);
      }
    }

    /** `timer_destroy`, from where it has yielded. */
    method TimerDestroyAgain() returns (done: bool)
      requires Valid() && Enabled(View(), DestroyAgain)
      modifies this, runnable_list.Repr, timers_list.Repr
      ensures Valid() && View() == Next(old(View()), DestroyAgain) && (done ==> AwaitedIsQuiet(old(View()), View()))
      ensures Does(old(View()), DestroyAgain, View()) && Returns(old(View()), done)
      ensures fresh(runnable_list.Repr - old(runnable_list.Repr)) && fresh(timers_list.Repr - old(timers_list.Repr))
    {
      hide Inv, Queue.Valid, Kernel.Linked;
      ghost var s := View();
      StepInv(s, DestroyAgain);
      StepDoes(s, DestroyAgain);
      done := Await(threads[current_thread].pc.timer);
      if done {
        DestroyedIsInactive(s, DestroyAgain, s.threads[s.current].pc.timer);
      }
    }

    // -------------------------------------------------------------- thread.c

    /** `thread_create`, with the identity of the new thread; `memory` says whether there is
        memory for its structure and its stack. */
    method ThreadCreate(child: Tid, memory: bool) returns (rc: Errno)
      requires Valid() && Enabled(View(), Create(child))
      modifies this, runnable_list.Repr
      ensures Valid() && View() == (if memory then Next(old(View()), Create(child)) else old(View()))
      ensures if memory then Created(old(View()), child, View()) else View() == old(View())
      ensures rc == if memory then EOK else ENOMEM
      ensures fresh(runnable_list.Repr - old(runnable_list.Repr)) && fresh(timers_list.Repr - old(timers_list.Repr))
    {
      hide Inv, Queue.Valid, Kernel.Linked;
      if !memory {
        return ENOMEM;
      }
      StepInv(View(), Create(child));
      StepDoes(View(), Create(child));
      NewThread(child);
      return EOK;
    }

    method NewThread(child: Tid)
      requires Linked() && child !in threads
      modifies this`threads, runnable_list.Repr
      ensures Linked() && fresh(runnable_list.Repr - old(runnable_list.Repr))
      ensures timers_list.Repr == old(timers_list.Repr)
      ensures View() == SetThread(old(View()), child, Thread(Ready, None, 0, Free))
                        .(runq := old(runnable_list.keys) + [child])
    {
      hide Queue.Valid;
      QueuedAreThreads();
      runnable_list.Init(child);
      threads := threads[child := Thread(Ready, None, 0, Free)];
      runnable_list.Append(child);
    }

    method ThreadYield()
      requires Valid() && Enabled(View(), Yield)
      modifies this, runnable_list.Repr
      ensures Valid() && View() == Next(old(View()), Yield)
      ensures Yielded(old(View()), View())
      ensures fresh(runnable_list.Repr - old(runnable_list.Repr)) && fresh(timers_list.Repr - old(timers_list.Repr))
    {
      hide Inv, Queue.Valid, Kernel.Linked;
      StepInv(View(), Yield);
      StepDoes(View(), Yield);
      Reschedule();
    }

    /** The body of `thread_suspend`. */
    method SleepAndSwitch()
      requires Linked() && current_thread in threads
      modifies this`threads, this`current_thread, runnable_list.Repr
      ensures Linked()
      ensures runnable_list.Repr == old(runnable_list.Repr) && timers_list.Repr == old(timers_list.Repr)
      ensures current_thread in old(threads) && (forall t :: t in old(runnable_list.keys) ==> t in old(threads))
      ensures View() == Schedule(GoToSleep(old(View())))
    {
      hide Queue.Valid, Kernel.Linked, Schedule;
      QueuedAreThreads();
      var current := current_thread;
      Store(current, threads[current].(state := Sleeping));
      SchedRemove(current);
      Reschedule();
    }

    method ThreadSuspend()
      requires Valid() && Enabled(View(), Suspend)
      modifies this, runnable_list.Repr
      ensures Valid() && View() == Next(old(View()), Suspend)
      ensures Suspended(old(View()), View())
      ensures fresh(runnable_list.Repr - old(runnable_list.Repr)) && fresh(timers_list.Repr - old(timers_list.Repr))
    {
      hide Inv, Queue.Valid, Kernel.Linked;
      StepInv(View(), Suspend);
      StepDoes(View(), Suspend);
      SleepAndSwitch();
    }

    /** The body of `thread_wakeup`. */
    method Wake(t: Tid)
      requires Linked() && t in threads && !Lost(View(), t)
      modifies this`threads, runnable_list.Repr
      ensures Linked() && View() == WakeThread(old(View()), t)
      ensures runnable_list.Repr == old(runnable_list.Repr) && timers_list.Repr == old(timers_list.Repr)
    {
      hide Queue.Valid, Kernel.Linked;
      if threads[t].state.Sleeping? {
        Store(t, threads[t].(state := Ready));
        SchedInsert(t);
      }
    }

    /** `thread_wakeup`, called by a thread: afterwards `t` can run unless it has finished, and
        nobody else is affected. */
    method ThreadWakeup(t: Tid)
      requires Valid() && Enabled(View(), Wakeup(t))
      modifies this, runnable_list.Repr
      ensures Valid() && View() == Next(old(View()), Wakeup(t)) && Woken(old(View()), View(), t)
      ensures fresh(runnable_list.Repr - old(runnable_list.Repr)) && fresh(timers_list.Repr - old(timers_list.Repr))
    {
      hide Inv, Queue.Valid, Kernel.Linked;
      ghost var s := View();
      StepInv(s, Wakeup(t));
      SleepersAreOut(s);
      Wake(t);
      RunnableUnlessFinished(View(), t);
    }

    /** `thread_sleep` and `thread_usleep`, up to the switch. */
    method ThreadSleep(timeout: nat)
      requires Valid() && Enabled(View(), Sleep(timeout))
      modifies this, runnable_list.Repr, timers_list.Repr
      ensures Valid() && View() == Next(old(View()), Sleep(timeout))
      ensures FellAsleep(old(View()), timeout, View())
      ensures timers[Own(old(current_thread))].expires == old(jiffies) + timeout
      ensures fresh(runnable_list.Repr - old(runnable_list.Repr)) && fresh(timers_list.Repr - old(timers_list.Repr))
    {
      hide Inv, Queue.Valid, Kernel.Linked, Runs;
      ghost var s := View();
      StepInv(s, Sleep(timeout));
      StepDoes(s, Sleep(timeout));
      OwnIsQuiet(s);
      var current := current_thread;
      Store(current, threads[current].(state := Sleeping, pc := Slept));
      SchedRemove(current);
      FallsAsleep(s);
      SetUpTimer(Own(current), timeout);
      Activate(Own(current));
      Reschedule();
    }

    /** The rest of `thread_sleep`: the thread destroys its timer. */
    method ThreadAwake() returns (done: bool)
      requires Valid() && Enabled(View(), Awake)
      modifies this, runnable_list.Repr, timers_list.Repr
      ensures Valid() && View() == Next(old(View()), Awake)
      ensures
        var tm := Own(old(current_thread));
        && TimerIsAwaited(old(View()).(pending := Remove(old(timers_list.keys), tm)), tm, View())
        && done == !old(timers)[tm].running
      ensures fresh(runnable_list.Repr - old(runnable_list.Repr)) && fresh(timers_list.Repr - old(timers_list.Repr))
    {
      hide Inv, Queue.Valid, Kernel.Linked;
      StepInv(View(), Awake);
      StepDoes(View(), Awake);
      TimerRemove(Own(current_thread));
      done := Await(Own(current_thread));
    }

    /** `thread_finish` */
    method ThreadFinish(retval: int)
      requires Valid() && Enabled(View(), Finish(retval))
      modifies this, runnable_list.Repr
      ensures Valid() && View() == Next(old(View()), Finish(retval))
      ensures Ends(old(View()), retval, View())
      ensures current_thread != old(current_thread)
      ensures fresh(runnable_list.Repr - old(runnable_list.Repr)) && fresh(timers_list.Repr - old(timers_list.Repr))
    {
      hide Inv, Queue.Valid, Kernel.Linked, Ends;
      ghost var s := View();
      StepInv(s, Finish(retval));
      StepDoes(s, Finish(retval));
      JoinersExist(s);
      SleepersAreOut(s);
      var current := current_thread;
      Store(current, threads[current].(state := Zombie, pc := Done));
      SchedRemove(current);
      Store(current, threads[current].(retval := retval));
      Record([Finished(current, retval)]);
      assert threads == s.threads[current := s.threads[current].(state := Zombie, pc := Done, retval := retval)];
      if threads[current].joiner.Some? {
        Wake(threads[current].joiner.value);
      }
      assert View() == Ended(s, retval);
      Reschedule();
      NeverReturns(s, retval);
    }

    method ThreadDestroy(t: Tid)
      requires Linked() && t in threads && t !in runnable_list.keys
      modifies this`threads, this`log, runnable_list.Repr
      ensures Linked() && View() == old(View()).(threads := old(threads) - {t}, log := old(log) + [Destroyed(t)])
      ensures runnable_list.Repr == old(runnable_list.Repr) && timers_list.Repr == old(timers_list.Repr)
    {
      hide Queue.Valid;
      threads := threads - {t};
      runnable_list.Forget(t);
      log := log + [Destroyed(t)];
    }

    /** The end of `thread_join`: the caller gets the value, and the thread is destroyed. */
    method ReapThread(t: Tid) returns (value: int)
      requires Linked() && t in threads && t !in runnable_list.keys
      modifies this`threads, this`log, runnable_list.Repr
      ensures Linked() && value == old(threads[t].retval) && View() == Reap(old(View()), t)
      ensures runnable_list.Repr == old(runnable_list.Repr) && timers_list.Repr == old(timers_list.Repr)
    {
      hide Queue.Valid, Kernel.Linked;
      ghost var was := log;
      value := threads[t].retval;
      Record([Joined(current_thread, t, value)]);
      ThreadDestroy(t);
      assert log == was + [Joined(current_thread, t, value), Destroyed(t)];
    }

    /** `thread_join`, up to its return or its suspension. */
    method ThreadJoin(t: Tid) returns (reply: JoinReply)
      requires Valid() && Enabled(View(), Join(t))
      modifies this, runnable_list.Repr
      ensures Valid() && View() == Next(old(View()), Join(t)) && Answers(old(View()), t, reply)
      ensures reply.Invalid? ==> View() == old(View())
      ensures reply.Delivered? ==> Got(old(View()), t, View())
      // the caller waits exactly for another thread that has not finished and has no joiner
      ensures reply.Waiting? <==> MustWait(old(View()), t)
      ensures reply.Waiting? ==>
        var c := old(current_thread);
        && c in threads && t in threads && threads[t].joiner == Some(c) && threads[c].state.Sleeping?
        && threads[c].pc == Joining(t) && c !in runnable_list.keys && Waits(old(View()), t, View())
      ensures fresh(runnable_list.Repr - old(runnable_list.Repr)) && fresh(timers_list.Repr - old(timers_list.Repr))
    {
      hide Inv, Queue.Valid, Kernel.Linked, Schedule, GoToSleep;
      StepInv(View(), Join(t));
      StepDoes(View(), Join(t));
      ghost var s := View();
      var current := current_thread;
      if t == current || threads[t].joiner.Some? {
        return Invalid;
      }
      if !threads[t].state.Zombie? {
        Store(t, threads[t].(joiner := Some(current)));
        Store(current, threads[current].(pc := Joining(t)));
        SleepAndSwitch();
        WaitsInJoin(s, t);
        return Waiting;
      }
      SleepersAreOut(s);
      var value := ReapThread(t);
      return Delivered(value);
    }

    /** `thread_join`, from its suspension on. */
    method ThreadJoinAgain() returns (value: int)
      requires Valid() && Enabled(View(), JoinAgain)
      modifies this, runnable_list.Repr
      ensures Valid() && View() == Next(old(View()), JoinAgain) && Delivers(old(View()), value)
      ensures Does(old(View()), JoinAgain, View())
      ensures fresh(runnable_list.Repr - old(runnable_list.Repr)) && fresh(timers_list.Repr - old(timers_list.Repr))
    {
      hide Inv, Queue.Valid, Kernel.Linked;
      ghost var s := View();
      StepInv(s, JoinAgain);
      StepDoes(s, JoinAgain);
      JoinedIsOut(s);
      var current := current_thread;
      value := ReapThread(threads[current].pc.target);
      Store(current, threads[current].(pc := Free));
    }
  }

  /** The timer that the current thread of `s` has waited for is neither pending nor running. */
  ghost predicate AwaitedIsQuiet(s: State, s': State) {
    Enabled(s, DestroyAgain) && !Active(s', s.threads[s.current].pc.timer)
  }

  /** `timer_destroy` returns exactly when the handler does not run. */
  ghost predicate Returns(s: State, done: bool) {
    Enabled(s, DestroyAgain) && (done <==> !s.timers[s.threads[s.current].pc.timer].running)
  }

  /** The value that a joiner which goes on gets. */
  ghost predicate Delivers(s: State, value: int) {
    Enabled(s, JoinAgain) && value == s.threads[s.threads[s.current].pc.target].retval
  }

  /** What the caller of `thread_join` is told: EINVAL for itself and for a thread that has a
      joiner, and the value exactly when the thread has finished. */
  ghost predicate Answers(s: State, t: Tid, reply: JoinReply) {
    && Enabled(s, Join(t))
    && (reply.Invalid? <==> t == s.current || s.threads[t].joiner.Some?)
    && (reply.Delivered? <==> JoinResult(s, Join(t)) == Some((t, s.threads[t].retval)))
    && (reply.Delivered? ==> reply.value == s.threads[t].retval)
  }

  /** A thread that sleeps, and is nevertheless in the run queue. */
  ghost predicate Lost(s: State, t: Tid)
    requires t in s.threads
  {
    s.threads[t].state.Sleeping? && t in s.runq
  }

  /** Threads that sleep or have finished are not in the run queue, and all others are. */
  lemma SleepersAreOut(s: State)
    requires Inv(s)
    ensures forall t :: t in s.threads && (s.threads[t].state.Sleeping? || s.threads[t].state.Zombie?) ==> t !in s.runq
  {
  }

  lemma RunnableUnlessFinished(s: State, t: Tid)
    requires Inv(s) && t in s.threads && !s.threads[t].state.Sleeping?
    ensures t in s.runq <==> !s.threads[t].state.Zombie?
  {
  }

  lemma OwnIsQuiet(s: State)
    requires Inv(s) && InOwnCode(s)
    ensures Own(s.current) !in s.pending
  {
    assert Own(s.current) in s.pending ==> Active(s, Own(s.current));
  }

  lemma JoinedIsOut(s: State)
    requires Inv(s) && Enabled(s, JoinAgain)
    ensures s.threads[s.current].pc.target !in s.runq
  {
    JoinAgainTarget(s);
  }

  lemma FallsAsleep(s: State)
    requires s.current in s.threads
    ensures GoToSleep(SetPc(s, s.current, Slept)) ==
      s.(threads := s.threads[s.current := s.threads[s.current].(state := Sleeping, pc := Slept)],
         runq := Remove(s.runq, s.current))
  {
    var c := s.threads[s.current];
    assert s.threads[s.current := c.(pc := Slept)][s.current := c.(pc := Slept, state := Sleeping)] ==
      s.threads[s.current := c.(state := Sleeping, pc := Slept)];
  }

  lemma JoinersExist(s: State)
    requires Inv(s)
    ensures forall t :: t in s.threads && s.threads[t].joiner.Some? ==> s.threads[t].joiner.value in s.threads
    ensures forall tm :: tm in s.pending ==> tm in s.timers
    ensures Enabled(s, Tick(true)) && Enabled(s, Tick(false))
    ensures s.current in s.threads && TIMER_THREAD in s.threads && forall t :: t in s.runq ==> t in s.threads
    ensures !Lost(s, TIMER_THREAD)
  {
    PendingAreTimers(s);
  }

  lemma PendingAreTimers(s: State)
    requires Inv(s)
    ensures forall tm :: tm in s.pending ==> tm in s.timers
  {
    assert forall tm :: tm in s.pending ==> Active(s, tm);
  }

  /** A finished thread is never switched to again: `thread_finish` does not return. */
  lemma NeverReturns(s: State, value: int)
    requires Inv(s) && Enabled(s, Finish(value))
    ensures Next(s, Finish(value)).current != s.current
  {
    hide PlaceOk, JoinOk, TimersOk, SleepersOk, LogOk, NoRepeats;
    EndedCore(s, value);
    ScheduleInv(Ended(s, value));
    assert !Runnable(Ended(s, value).threads[s.current]);
  }
}
