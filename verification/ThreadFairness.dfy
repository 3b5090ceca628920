/** Round robin: how long a thread in the run queue waits. */
module ThreadFairness {
  import opened Basics
  import opened ThreadSpec
  import opened ThreadSafety
  import opened ThreadEffects
  import opened ThreadRuns

  /** The place of `t` in a queue. */
  ghost function Place(q: seq<Tid>, t: Tid): (p: nat)
    requires t in q
    ensures p < |q| && q[p] == t && forall i :: 0 <= i < p ==> q[i] != t
  {
    if q[0] == t then 0 else 1 + Place(q[1..], t)
  }

  lemma {:induction false} PlaceAppend(q: seq<Tid>, x: Tid, t: Tid)
    requires t in q
    ensures t in q + [x] && Place(q + [x], t) == Place(q, t)
  {
    if q[0] != t {
      assert (q + [x])[1..] == q[1..] + [x];
      PlaceAppend(q[1..], x, t);
    }
  }

  lemma {:induction false} PlaceRemove(q: seq<Tid>, x: Tid, t: Tid)
    requires t in q && x != t
    ensures t in Remove(q, x) && Place(Remove(q, x), t) <= Place(q, t)
  {
    if q[0] == x {
    } else if q[0] != t {
      PlaceRemove(q[1..], x, t);
    }
  }

  lemma PlaceRotate(q: seq<Tid>, t: Tid)
    requires t in q && q[0] != t
    ensures t in Rotate(q) && Place(Rotate(q), t) == Place(q, t) - 1
  {
    PlaceAppend(q[1..], q[0], t);
  }

  /** Whether a step calls `schedule`. */
  predicate Schedules(s: State, step: Step)
    requires Enabled(s, step)
  {
    match step
    case Yield => true
    case Suspend => true
    case Sleep(_) => true
    case TimerSuspend => true
    case Finish(_) => true
    case Join(t) => CanJoin(s, t) && !s.threads[t].state.Zombie?
    case Tick(quantum) => quantum
    case TimerDestroy(tm) => s.timers[tm].running
    case Awake => s.timers[Own(s.current)].running
    case DestroyAgain => s.timers[s.threads[s.current].pc.timer].running
    case _ => false
  }

  /** The state in which a step calls `schedule`, or its last state when it does not. */
  ghost function Before(s: State, step: Step): State
    requires Enabled(s, step)
  {
    match step
    case Create(child) => Next(s, step)
    case Suspend => GoToSleep(s)
    case Sleep(timeout) =>
      var s1 := GoToSleep(SetPc(s, s.current, Slept));
      StartTimer(InitTimer(s1, Own(s.current), timeout), Own(s.current))
    case TimerSuspend => GoToSleep(s.(phase := Scanning))
    case Finish(value) => Ended(s, value)
    case Join(t) =>
      if CanJoin(s, t) && !s.threads[t].state.Zombie? then
        var s1 := SetThread(s, t, s.threads[t].(joiner := Some(s.current)));
        GoToSleep(SetPc(s1, s1.current, Joining(t)))
      else Next(s, step)
    case Tick(_) => RunTimers(s.(jiffies := s.jiffies + 1))
    case TimerDestroy(tm) =>
      if s.timers[tm].running then SetPc(s.(pending := Remove(s.pending, tm)), s.current, Destroying(tm))
        else Next(s, step)
    case Awake =>
      if s.timers[Own(s.current)].running
      then SetPc(s.(pending := Remove(s.pending, Own(s.current))), s.current, Destroying(Own(s.current)))
      else Next(s, step)
    case DestroyAgain =>
      var tm := s.threads[s.current].pc.timer;
      if s.timers[tm].running then SetPc(s, s.current, Destroying(tm)) else Next(s, step)
    case Yield => s
    case _ => Next(s, step)
  }

  /** Up to its call of `schedule`, a step only appends to the run queue and removes from it. */
  ghost predicate Shuffles(q: seq<Tid>, q': seq<Tid>) {
    || q' == q
    || (exists x :: q' == q + [x])
    || (exists x :: q' == Remove(q, x))
    || (exists x, y :: x != y && q' == Remove(q, x) + [y])
  }

  lemma StepShuffles(s: State, step: Step)
    requires Inv(s) && Enabled(s, step)
    ensures Shuffles(s.runq, Before(s, step).runq)
    ensures if Schedules(s, step) then CanSchedule(Before(s, step)) && Next(s, step) == Schedule(Before(s, step))
            else Next(s, step) == Before(s, step)
  {
    hide PlaceOk, JoinOk, TimersOk, SleepersOk, LogOk, QueueOk;
    match step
    case Sleep(_) => SleepShuffles(s, step);
    case Suspend => SleepShuffles(s, step);
    case TimerSuspend => SleepShuffles(s, step);
    case Finish(_) => FinishShuffles(s, step);
    case Join(_) => JoinShuffles(s, step);
    case _ => OtherShuffles(s, step);
  }

  ghost predicate CanSchedule(s: State) {
    s.current in s.threads && forall t :: t in s.runq ==> t in s.threads
  }

  lemma SleepShuffles(s: State, step: Step)
    requires Enabled(s, step) && (step.Sleep? || step.Suspend? || step.TimerSuspend?)
    ensures Before(s, step).runq == Remove(s.runq, s.current)
    ensures CanSchedule(Before(s, step)) && Next(s, step) == Schedule(Before(s, step))
  {
  }

  lemma FinishShuffles(s: State, step: Step)
    requires Enabled(s, step) && step.Finish? && s.threads[s.current].state.Running?
    ensures Shuffles(s.runq, Before(s, step).runq)
    ensures CanSchedule(Before(s, step)) && Next(s, step) == Schedule(Before(s, step))
  {
  }

  lemma JoinShuffles(s: State, step: Step)
    requires Enabled(s, step) && step.Join?
    ensures Shuffles(s.runq, Before(s, step).runq)
    ensures if Schedules(s, step) then CanSchedule(Before(s, step)) && Next(s, step) == Schedule(Before(s, step))
            else Next(s, step) == Before(s, step)
  {
  }

  lemma OtherShuffles(s: State, step: Step)
    requires Enabled(s, step)
    requires !step.Sleep? && !step.Suspend? && !step.TimerSuspend? && !step.Finish? && !step.Join?
    ensures Before(s, step).runq == s.runq || exists x :: Before(s, step).runq == s.runq + [x]
    ensures if Schedules(s, step) then CanSchedule(Before(s, step)) && Next(s, step) == Schedule(Before(s, step))
            else Next(s, step) == Before(s, step)
  {
  }

  lemma ShufflesPlace(q: seq<Tid>, q': seq<Tid>, t: Tid)
    requires NoRepeats(q) && Shuffles(q, q') && t in q && t in q'
    ensures Place(q', t) <= Place(q, t)
  {
    if x :| q' == q + [x] {
      PlaceAppend(q, x, t);
    } else if x :| q' == Remove(q, x) {
      RemoveFacts(q, x);
      PlaceRemove(q, x, t);
    } else if x, y :| x != y && q' == Remove(q, x) + [y] {
      RemoveFacts(q, x);
      assert t in Remove(q, x) || t == y;
      if x != t {
        PlaceRemove(q, x, t);
        PlaceAppend(Remove(q, x), y, t);
      }
    }
  }

  lemma RotatedPlace(q: seq<Tid>, b: seq<Tid>, t: Tid)
    requires NoRepeats(q) && Shuffles(q, b) && t in q && b != [] && t in Rotate(b)
    ensures b[0] == t || Place(Rotate(b), t) < Place(q, t)
  {
    assert b == [b[0]] + b[1..];
    hide Shuffles;
    ShufflesPlace(q, b, t);
    if b[0] != t {
      PlaceRotate(b, t);
    }
  }

  /** A step that schedules either switches to the thread or moves it forward by one place
      at least; no other step moves it back. */
  lemma StepPlace(s: State, step: Step, t: Tid)
    requires Inv(s) && Enabled(s, step) && t in s.runq && t in Next(s, step).runq
    ensures
      if Schedules(s, step)
      then Next(s, step).current == t || Place(Next(s, step).runq, t) < Place(s.runq, t)
      else Place(Next(s, step).runq, t) <= Place(s.runq, t)
  {
    hide Enabled, Schedules, Before, Shuffles, Inv, Next, NoRepeats, Place, Rotate;
    StepShuffles(s, step);
    var b := Before(s, step);
    QueueRepeats(s);
    if !Schedules(s, step) || b.runq == [] {
      ShufflesPlace(s.runq, b.runq, t);
      NeverEmpty(s, step);
    } else {
      RotatedPlace(s.runq, b.runq, t);
    }
  }

  lemma NeverEmpty(s: State, step: Step)
    requires Inv(s) && Enabled(s, step) && Shuffles(s.runq, Before(s, step).runq)
    requires Schedules(s, step) ==> CanSchedule(Before(s, step)) && Next(s, step) == Schedule(Before(s, step))
    ensures Schedules(s, step) && Before(s, step).runq == [] ==> Next(s, step).runq == []
  {
  }

  lemma QueueRepeats(s: State)
    requires Inv(s)
    ensures NoRepeats(s.runq)
  {
  }

  /** No other step switches to another thread. */
  lemma OnlyCallsSwitch(s: State, step: Step)
    requires Inv(s) && Enabled(s, step) && Next(s, step).current != s.current
    ensures Schedules(s, step)
  {
    hide Inv, Next;
    StepDoes(s, step);
  }

  /** How many of the steps from `i` to `j` call `schedule`. */
  ghost function Calls(states: seq<State>, steps: seq<Step>, i: nat, j: nat): nat
    requires IsRun(states, steps) && i <= j <= |steps|
    decreases j - i
  {
    if i == j then 0 else (if Schedules(states[i], steps[i]) then 1 else 0) + Calls(states, steps, i + 1, j)
  }

  ghost function CallSteps(states: seq<State>, steps: seq<Step>, i: nat, j: nat): set<nat>
    requires IsRun(states, steps) && i <= j <= |steps|
  {
    set k: nat | i <= k < j && Schedules(states[k], steps[k])
  }

  lemma {:induction false} CallsAreCounted(states: seq<State>, steps: seq<Step>, i: nat, j: nat)
    requires IsRun(states, steps) && i <= j <= |steps|
    ensures Calls(states, steps, i, j) == |CallSteps(states, steps, i, j)|
    decreases j - i
  {
    hide IsRun, Schedules;
    if i < j {
      CallsAreCounted(states, steps, i + 1, j);
      OneMoreCall(states, steps, i, j);
    } else {
      assert CallSteps(states, steps, i, j) == {};
    }
  }

  lemma OneMoreCall(states: seq<State>, steps: seq<Step>, i: nat, j: nat)
    requires IsRun(states, steps) && i < j <= |steps|
    ensures Enabled(states[i], steps[i]) && i !in CallSteps(states, steps, i + 1, j)
    ensures CallSteps(states, steps, i, j) ==
      CallSteps(states, steps, i + 1, j) + if Schedules(states[i], steps[i]) then {i} else {}
  {
    hide Schedules;
  }

  /** Bounded waiting: a thread at place `k` of the run queue that does not leave the queue
      is switched to by the (k+1)-th call of `schedule` at the latest. */
  lemma {:induction false} BoundedWaiting(states: seq<State>, steps: seq<Step>, i: nat, j: nat, t: Tid) returns (m: nat)
    requires IsRun(states, steps) && i <= j <= |steps|
    requires forall k :: i <= k <= j ==> t in states[k].runq
    requires Calls(states, steps, i, j) > Place(states[i].runq, t)
    ensures i <= m < j && Schedules(states[m], steps[m]) && states[m + 1].current == t
    ensures Calls(states, steps, i, m) <= Place(states[i].runq, t)
    decreases j - i
  {
    RunStep(states, steps, i);
    StepPlace(states[i], steps[i], t);
    if Schedules(states[i], steps[i]) && states[i + 1].current == t {
      m := i;
    } else {
      m := BoundedWaiting(states, steps, i + 1, j, t);
    }
  }
}
