/** The code performs every run of the thread system, so that what holds over all runs holds of
    the kernel's variables and linked lists. Models kernel/proc/thread.c, kernel/sched/sched.c
    and kernel/time/timer.c. */
module KernelRuns {
  import opened ThreadSpec
  import opened ThreadSafety
  import opened ThreadRuns
  import opened KernelThreads

  /** One step, by the function of the kernel that it stands for. */
  method Perform(k: Kernel, step: Step)
    requires k.Valid() && Enabled(k.View(), step)
    modifies k, k.runnable_list.Repr, k.timers_list.Repr
    ensures k.Valid() && k.View() == Next(old(k.View()), step)
    ensures fresh(k.runnable_list.Repr - old(k.runnable_list.Repr))
    ensures fresh(k.timers_list.Repr - old(k.timers_list.Repr))
  {
    hide *;
    match step
    case Create(child) => var _ := k.ThreadCreate(child, true);
    case Yield => k.ThreadYield();
    case Suspend => k.ThreadSuspend();
    case Wakeup(t) => k.ThreadWakeup(t);
    case Sleep(timeout) => k.ThreadSleep(timeout);
    case Awake => var _ := k.ThreadAwake();
    case TimerInit(tm, timeout) => k.TimerInitJiffies(tm, timeout);
    case TimerStart(tm) => k.TimerStart(tm);
    case TimerDestroy(tm) => var _ := k.TimerDestroy(tm);
    case DestroyAgain => var _ := k.TimerDestroyAgain();
    case Join(t) => var _ := k.ThreadJoin(t);
    case JoinAgain => var _ := k.ThreadJoinAgain();
    case Finish(value) => k.ThreadFinish(value);
    case Tick(quantum) => k.SchedTimer(quantum);
    case Scan => k.TimerScan();
    case HandlerReturn => k.TimerHandled();
    case TimerSuspend => k.TimerThreadSuspend();
  }

  /** A whole run from boot on: the variables and the lists are those of its last state. */
  method Run(steps: seq<Step>, ghost states: seq<State>) returns (k: Kernel)
    requires IsRun(states, steps)
    ensures fresh(k) && k.Valid() && k.View() == states[|steps|]
  {
    hide Kernel.Valid, Inv, Enabled, Next;
    k := new Kernel();
    var i := 0;
    while i < |steps|
      invariant 0 <= i <= |steps| && fresh(k) && fresh(k.runnable_list.Repr) && fresh(k.timers_list.Repr)
      invariant k.Valid() && k.View() == states[i]
    {
      Perform(k, steps[i]);
      i := i + 1;
    }
  }
}
