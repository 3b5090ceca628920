/** Threads, the run queue and timers of one processor as a transition system. A step is what
    happens in one region with interrupts disabled, or one timer interrupt.
    Models kernel/proc/thread.c, kernel/sched/sched.c and kernel/time/timer.c. */
module ThreadSpec {
  import opened Basics

  type Tid = nat

  datatype ThreadState = Ready | Running | Sleeping | Zombie

  /** The timer inside a thread structure, or any other timer. */
  datatype TimerId = Own(tid: Tid) | Other(number: nat)

  /** Where a thread goes on when it is switched to. */
  datatype Pc =
    | Free                         // in code of its own, or in a timer handler
    | Joining(target: Tid)         // in thread_join, after thread_suspend
    | Slept                        // in thread_sleep, after schedule
    | Destroying(timer: TimerId)   // in timer_destroy, after thread_yield
    | Done                         // in thread_finish

  datatype Thread = Thread(state: ThreadState, joiner: Option<Tid>, retval: int, pc: Pc)

  /** `starts` and `fires` count the calls of `timer_start` and of the handler. */
  datatype Timer = Timer(expires: int, timeout: nat, running: bool, starts: nat, fires: nat)

  /** Where the timer thread is in its loop. */
  datatype Phase = Scanning | Handling(timer: TimerId) | Suspending

  datatype Event =
    | Finished(thread: Tid, value: int)
    | Joined(joiner: Tid, thread: Tid, value: int)
    | Destroyed(thread: Tid)
    | Fired(timer: TimerId, expires: int, at: int)

  datatype State = State(
    threads: map<Tid, Thread>,
    runq: seq<Tid>,
    current: Tid,
    timers: map<TimerId, Timer>,
    pending: seq<TimerId>,
    jiffies: nat,
    phase: Phase,
    log: seq<Event>)

  const TIMER_THREAD: Tid := 0
  const IDLE_THREAD: Tid := 1
  const MAIN_THREAD: Tid := 2

  datatype Step =
    | Create(child: Tid)
    | Yield
    | Suspend
    | Wakeup(thread: Tid)
    | Sleep(timeout: nat)
    | Awake
    | TimerInit(timer: TimerId, timeout: nat)
    | TimerStart(timer: TimerId)
    | TimerDestroy(timer: TimerId)
    | DestroyAgain
    | Join(thread: Tid)
    | JoinAgain
    | Finish(value: int)
    | Tick(quantum: bool)
    | Scan
    | HandlerReturn
    | TimerSuspend

  // ---------------------------------------------------------------- queues

  function Rotate<T>(q: seq<T>): seq<T>
    requires q != []
  {
    q[1..] + [q[0]]
  }

  /** The first pending timer that has expired. */
  function Expired(timers: map<TimerId, Timer>, pending: seq<TimerId>, jiffies: nat): Option<TimerId> {
    if pending == [] then None
    else if pending[0] in timers && timers[pending[0]].expires < jiffies then Some(pending[0])
    else Expired(timers, pending[1..], jiffies)
  }

  // ---------------------------------------------------------------- kernel functions

  function SetThread(s: State, t: Tid, thread: Thread): State {
    s.(threads := s.threads[t := thread])
  }

  function SetPc(s: State, t: Tid, pc: Pc): State
    requires t in s.threads
  {
    SetThread(s, t, s.threads[t].(pc := pc))
  }

  /** `thread_switch` */
  function Switch(s: State, t: Tid): State
    requires s.current in s.threads && t in s.threads
  {
    var c := s.threads[s.current];
    var s1 := if c.state.Running? then SetThread(s, s.current, c.(state := Ready)) else s;
    SetThread(s1, t, s1.threads[t].(state := Running)).(current := t)
  }

  /** What a switch to `next` means: it runs, the thread that has run is ready unless it has
      left the processor for good or for a while, and nothing else changes but the queue. */
  ghost predicate Switched(was: State, now: State, next: Tid) {
    && was.current in was.threads && next in was.threads
    && now.current == next && now.threads.Keys == was.threads.Keys && now.threads[next].state.Running?
    && (next != was.current && was.threads[was.current].state.Running? ==> now.threads[was.current].state.Ready?)
    && (forall t :: t in was.threads ==> now.threads[t].(state := was.threads[t].state) == was.threads[t])
    && (forall t :: t in was.threads && t != next && !(t == was.current && was.threads[t].state.Running?) ==>
         now.threads[t] == was.threads[t])
    && now == was.(threads := now.threads, runq := now.runq, current := next)
  }

  /** `schedule` */
  function Schedule(s: State): State
    requires s.current in s.threads && forall t :: t in s.runq ==> t in s.threads
  {
    if s.runq == [] then s else Switch(s.(runq := Rotate(s.runq)), s.runq[0])
  }

  /** The current thread goes to sleep, out of the run queue. */
  function GoToSleep(s: State): State
    requires s.current in s.threads
  {
    SetThread(s, s.current, s.threads[s.current].(state := Sleeping)).(runq := Remove(s.runq, s.current))
  }

  /** `thread_wakeup` */
  function WakeThread(s: State, t: Tid): State
    requires t in s.threads
  {
    if s.threads[t].state.Sleeping?
    then SetThread(s, t, s.threads[t].(state := Ready)).(runq := s.runq + [t])
    else s
  }

  /** `timers_run` */
  function RunTimers(s: State): State
    requires TIMER_THREAD in s.threads
  {
    if Expired(s.timers, s.pending, s.jiffies).Some? then WakeThread(s, TIMER_THREAD) else s
  }

  function StartTimer(s: State, tm: TimerId): State
    requires tm in s.timers
  {
    var timer := s.timers[tm];
    s.(timers := s.timers[tm := timer.(expires := s.jiffies + timer.timeout, starts := timer.starts + 1)],
       pending := s.pending + [tm])
  }

  function InitTimer(s: State, tm: TimerId, timeout: nat): State {
    var (starts, fires) := if tm in s.timers then (s.timers[tm].starts, s.timers[tm].fires) else (0, 0);
    s.(timers := s.timers[tm := Timer(0, timeout, false, starts, fires)])
  }

  /** One round of the inner loop of `timer_destroy`: wait while the handler is running. */
  function AwaitHandler(s: State, tm: TimerId): State
    requires s.current in s.threads && tm in s.timers && forall t :: t in s.runq ==> t in s.threads
  {
    if s.timers[tm].running
    then Schedule(SetPc(s, s.current, Destroying(tm)))
    else SetPc(s, s.current, Free).(pending := Remove(s.pending, tm))
  }

  /** `thread_destroy`, with what `thread_join` delivers to its caller. */
  function Reap(s: State, t: Tid): State
    requires t in s.threads
  {
    s.(threads := s.threads - {t},
       log := s.log + [Joined(s.current, t, s.threads[t].retval), Destroyed(t)])
  }

  // ---------------------------------------------------------------- steps

  /** Whether the current thread is in code of its own: not inside a kernel function, and not
      in the loop of the timer thread. */
  predicate InOwnCode(s: State) {
    && s.current in s.threads && s.threads[s.current].pc.Free?
    && (s.current == TIMER_THREAD ==> s.phase.Handling?)
  }

  /** What callers must see to. The idle thread only yields. */
  predicate Enabled(s: State, step: Step) {
    && s.current in s.threads && TIMER_THREAD in s.threads && (forall t :: t in s.runq ==> t in s.threads)
    && (forall t :: t in s.threads && s.threads[t].joiner.Some? ==> s.threads[t].joiner.value in s.threads)
    && match step
       case Create(child) => InOwnCode(s) && child !in s.threads && (forall e :: e in s.log ==> e != Destroyed(child))
       case Yield => InOwnCode(s)
       case Suspend => InOwnCode(s) && s.current != IDLE_THREAD
       case Wakeup(t) => InOwnCode(s) && t in s.threads && !s.threads[t].pc.Joining?
       case Sleep(_) => InOwnCode(s) && s.current != IDLE_THREAD
       case Awake => s.threads[s.current].pc.Slept? && Own(s.current) in s.timers
       case TimerInit(tm, _) => InOwnCode(s) && tm.Other? && tm !in s.pending && s.phase != Handling(tm)
       case TimerStart(tm) => InOwnCode(s) && tm.Other? && tm in s.timers && tm !in s.pending
       case TimerDestroy(tm) => InOwnCode(s) && s.current != IDLE_THREAD && tm.Other? && tm in s.timers &&
         !(s.current == TIMER_THREAD && s.phase == Handling(tm))
       case DestroyAgain => s.threads[s.current].pc.Destroying? && s.threads[s.current].pc.timer in s.timers
       case Join(t) => InOwnCode(s) && t in s.threads && s.current != TIMER_THREAD && s.current != IDLE_THREAD
       case JoinAgain => s.threads[s.current].pc.Joining? &&
         s.threads[s.current].pc.target in s.threads && s.threads[s.current].pc.target != s.current
       case Finish(_) => InOwnCode(s) && s.current != TIMER_THREAD && s.current != IDLE_THREAD
       case Tick(_) => true
       case Scan => s.current == TIMER_THREAD && s.threads[s.current].pc.Free? && s.phase.Scanning?
       // the handler of a thread's own timer has woken the thread
       case HandlerReturn =>
         && s.current == TIMER_THREAD && s.threads[s.current].pc.Free? && s.phase.Handling? && s.phase.timer in s.timers
         && (s.phase.timer.Own? && s.phase.timer.tid in s.threads ==> !s.threads[s.phase.timer.tid].state.Sleeping?)
       case TimerSuspend => s.current == TIMER_THREAD && s.threads[s.current].pc.Free? && s.phase.Suspending?
  }

  /** `thread_can_join` */
  predicate CanJoin(s: State, t: Tid)
    requires t in s.threads
  {
    t != s.current && s.threads[t].joiner.None?
  }

  function JoinStep(s: State, t: Tid): State
    requires Enabled(s, Join(t))
  {
    if !CanJoin(s, t) then s
    else if s.threads[t].state.Zombie? then Reap(s, t)
    else
      var s1 := SetThread(s, t, s.threads[t].(joiner := Some(s.current)));
      Schedule(GoToSleep(SetPc(s1, s1.current, Joining(t))))
  }

  function FinishStep(s: State, value: int): State
    requires Enabled(s, Finish(value))
  {
    var me := s.threads[s.current];
    var s1 := SetThread(s, s.current, me.(state := Zombie, retval := value, pc := Done))
      .(runq := Remove(s.runq, s.current), log := s.log + [Finished(s.current, value)]);
    Schedule(if me.joiner.Some? then WakeThread(s1, me.joiner.value) else s1)
  }

  function ScanStep(s: State): State
    requires Enabled(s, Scan)
  {
    match Expired(s.timers, s.pending, s.jiffies)
    case None => s.(phase := Suspending)
    case Some(tm) =>
      if tm !in s.timers then s else
      var timer := s.timers[tm];
      s.(pending := Remove(s.pending, tm), phase := Handling(tm),
         timers := s.timers[tm := timer.(running := true, fires := timer.fires + 1)],
         log := s.log + [Fired(tm, timer.expires, s.jiffies)])
  }

  function Next(s: State, step: Step): State
    requires Enabled(s, step)
  {
    match step
    case Create(child) =>
      SetThread(s, child, Thread(Ready, None, 0, Free)).(runq := s.runq + [child])
    case Yield => Schedule(s)
    case Suspend => Schedule(GoToSleep(s))
    case Wakeup(t) => WakeThread(s, t)
    case Sleep(timeout) =>
      var s1 := GoToSleep(SetPc(s, s.current, Slept));
      Schedule(StartTimer(InitTimer(s1, Own(s.current), timeout), Own(s.current)))
    case Awake => AwaitHandler(s.(pending := Remove(s.pending, Own(s.current))), Own(s.current))
    case TimerInit(tm, timeout) => InitTimer(s, tm, timeout)
    case TimerStart(tm) => StartTimer(s, tm)
    case TimerDestroy(tm) => AwaitHandler(s.(pending := Remove(s.pending, tm)), tm)
    case DestroyAgain => AwaitHandler(s, s.threads[s.current].pc.timer)
    case Join(t) => JoinStep(s, t)
    case JoinAgain => SetPc(Reap(s, s.threads[s.current].pc.target), s.current, Free)
    case Finish(value) => FinishStep(s, value)
    case Tick(quantum) =>
      var s1 := RunTimers(s.(jiffies := s.jiffies + 1));
      if quantum then Schedule(s1) else s1
    case Scan => ScanStep(s)
    case HandlerReturn =>
      s.(phase := Scanning, timers := s.timers[s.phase.timer := s.timers[s.phase.timer].(running := false)])
    case TimerSuspend => Schedule(GoToSleep(s.(phase := Scanning)))
  }
}
