/** The steps of the thread system, each run with interrupts off: scheduling
    (src/threads/thread.c), sleeping (src/devices/timer.c), semaphores and locks
    (src/threads/synch.c). A thread inside sema_down tests the value once per step, so
    every interleaving of threads is a sequence of these calls. */
module Scheduler {
  import opened Lists
  import opened Options
  import opened ThreadState

  /** The sleepers whose time has not come, and those whose time has, in list order. */
  ghost function Late(list: seq<nat>, threads: map<nat, Thread>, now: int): (r: seq<nat>)
    requires forall t | t in list :: t in threads
    ensures forall t :: t in r <==> t in list && threads[t].wakeTime > now
  {
    if list == [] then []
    else
      var n := |list| - 1;
      assert list == list[..n] + [list[n]];
      Late(list[..n], threads, now) + if threads[list[n]].wakeTime > now then [list[n]] else []
  }

  ghost function Due(list: seq<nat>, threads: map<nat, Thread>, now: int): (r: seq<nat>)
    requires forall t | t in list :: t in threads
    ensures forall t :: t in r <==> t in list && threads[t].wakeTime <= now
  {
    if list == [] then []
    else
      var n := |list| - 1;
      assert list == list[..n] + [list[n]];
      Due(list[..n], threads, now) + if threads[list[n]].wakeTime <= now then [list[n]] else []
  }

  lemma OneSleeper(list: seq<nat>, threads: map<nat, Thread>, now: int, k: nat)
    requires (forall t | t in list :: t in threads) && k < |list|
    ensures Late(list[..k + 1], threads, now)
            == Late(list[..k], threads, now) + if threads[list[k]].wakeTime > now then [list[k]] else []
    ensures Due(list[..k + 1], threads, now)
            == Due(list[..k], threads, now) + if threads[list[k]].wakeTime <= now then [list[k]] else []
  {
    assert list[..k + 1][..k] == list[..k];
  }

  /** The two split the list between them, each in list order. */
  lemma {:induction false} SleepersSplit(list: seq<nat>, threads: map<nat, Thread>, now: int)
    requires forall t | t in list :: t in threads
    ensures multiset(Late(list, threads, now)) + multiset(Due(list, threads, now)) == multiset(list)
  {
    hide Late, Due;
    if list == [] {
      NoSleepers(threads, now);
    } else {
      var n := |list| - 1;
      assert list == list[..n] + [list[n]];
      SleepersSplit(list[..n], threads, now);
      OneSleeper(list, threads, now, n);
      assert list[..n + 1] == list;
    }
  }

  ghost predicate InOrder(list: seq<nat>, x: nat, y: nat) {
    exists i, j :: 0 <= i < j < |list| && list[i] == x && list[j] == y
  }

  lemma InLongerOrder(list: seq<nat>, x: nat, y: nat)
    requires list != [] && (InOrder(list[..|list| - 1], x, y) || (x in list[..|list| - 1] && y == list[|list| - 1]))
    ensures InOrder(list, x, y)
  {
    var m := list[..|list| - 1];
    if InOrder(m, x, y) {
      var i, j :| 0 <= i < j < |m| && m[i] == x && m[j] == y;
      assert list[i] == x && list[j] == y;
    } else {
      var i :| 0 <= i < |m| && m[i] == x;
      assert list[i] == x;
    }
  }

  lemma {:induction false} DueInOrder(list: seq<nat>, threads: map<nat, Thread>, now: int, a: nat, b: nat)
    requires (forall t | t in list :: t in threads) && a < b < |Due(list, threads, now)|
    ensures InOrder(list, Due(list, threads, now)[a], Due(list, threads, now)[b])
  {
    hide InOrder;
    var n := |list| - 1;
    var rest := Due(list[..n], threads, now);
    if b < |rest| {
      DueInOrder(list[..n], threads, now, a, b);
    } else {
      assert rest[a] in rest;
    }
    InLongerOrder(list, Due(list, threads, now)[a], Due(list, threads, now)[b]);
  }

  lemma {:induction false} LateInOrder(list: seq<nat>, threads: map<nat, Thread>, now: int, a: nat, b: nat)
    requires (forall t | t in list :: t in threads) && a < b < |Late(list, threads, now)|
    ensures InOrder(list, Late(list, threads, now)[a], Late(list, threads, now)[b])
  {
    hide InOrder;
    var n := |list| - 1;
    var rest := Late(list[..n], threads, now);
    if b < |rest| {
      LateInOrder(list[..n], threads, now, a, b);
    } else {
      assert rest[a] in rest;
    }
    InLongerOrder(list, Late(list, threads, now)[a], Late(list, threads, now)[b]);
  }

  /** Exactly the threads of `due` were woken. */
  ghost predicate WokenOnly(a: map<nat, Thread>, b: map<nat, Thread>, due: seq<nat>) {
    a.Keys == b.Keys && forall t | t in a :: b[t] == if t in due then a[t].(status := Ready, wakeTime := -1) else a[t]
  }

  /** Thread t left the processor with status st and `current` entered it; nobody else changed. */
  ghost predicate Left(a: map<nat, Thread>, t: nat, st: Status, current: nat, b: map<nat, Thread>) {
    && a.Keys == b.Keys && t in a && current in a
    && forall u | u in a ::
         b[u] == a[u].(status := if u == current then Running else if u == t then st else a[u].status)
  }

  lemma LeftBy(a: map<nat, Thread>, t: nat, st: Status, current: nat, mid: map<nat, Thread>, b: map<nat, Thread>)
    requires t in a && current in mid && mid == a[t := a[t].(status := st)]
    requires b == mid[current := mid[current].(status := Running)]
    ensures Left(a, t, st, current, b)
  {}

  lemma SleptBy(a: map<nat, Thread>, t: nat, wake: int, current: nat, mid: map<nat, Thread>, b: map<nat, Thread>)
    requires t in a && current in mid && mid == a[t := a[t].(status := Blocked, wakeTime := wake)] && t != current
    requires b == mid[current := mid[current].(status := Running)]
    ensures t in b && b[t] == a[t].(status := Blocked, wakeTime := wake) && Left(a[t := b[t]], t, Blocked, current, b)
  {}

  lemma RunsOneOf(list: seq<nat>, threads: map<nat, Thread>, idle: nat, current: nat, ready: seq<nat>)
    requires RunsNext(list, threads, idle, current, ready)
    ensures current == idle || current in list
  {}

  /** A semaphore was upped: one more, and of those waiting the first of the highest priority
      left for the back of the ready list. */
  ghost predicate Upped(s0: Sema, a: map<nat, Thread>, ready0: seq<nat>,
                        s: Sema, b: map<nat, Thread>, ready: seq<nat>) {
    && s.value == s0.value + 1 && s.holder == s0.holder
    && if s0.waiters == [] then s.waiters == [] && b == a && ready == ready0
       else exists k: nat :: && k < |s0.waiters| && FirstHighest(s0.waiters, a, k)
                             && s.waiters == s0.waiters[..k] + s0.waiters[k + 1..]
                             && ready == ready0 + [s0.waiters[k]] && s0.waiters[k] in a
                             && b == a[s0.waiters[k] := a[s0.waiters[k]].(status := Ready)]
  }

  // ---- Runs ----

  datatype Step =
    | BlockStep | YieldStep | SleepStep(wake: int) | ExitStep | UnblockStep(thread: nat)
    | CreateStep(thread: nat, priority: int)
    | PriorityStep(thread: nat, priority: int) | WakeStep(position: nat) | DownStep(sema: nat) | TryDownStep(sema: nat)
    | UpStep(sema: nat) | HoldStep(sema: nat) | UnholdStep(sema: nat)

  /** What the code asks of a thread, or of an interrupt, before each step. A thread inside
      sema_down does nothing else of its own accord. */
  ghost predicate Enabled(s: System, step: Step) {
    && |s.history| == |s.semas| && s.current in s.threads && s.idle in s.threads
    && (forall t | t in s.ready :: t in s.threads)
    && match step
       case BlockStep => s.current !in s.pending
       case YieldStep => true
       case SleepStep(_) => s.current !in s.pending && s.current != s.idle
       case ExitStep => s.current !in s.pending && s.current != s.idle
       case UnblockStep(t) => t in s.threads && t != s.idle && s.threads[t].status == Blocked && t !in s.sleeping
           && t !in s.pending
       case CreateStep(t, p) => t !in s.threads && PRI_MIN <= p <= PRI_MAX
       case PriorityStep(t, p) => t in s.threads && PRI_MIN <= p <= PRI_MAX
       case WakeStep(k) => k < |s.sleeping| && s.sleeping[k] in s.threads
       case DownStep(i) => i < |s.semas| && s.current != s.idle
           && (s.current in s.pending ==> s.pending[s.current] == i)
       case TryDownStep(i) => i < |s.semas|
       case UpStep(i) => i < |s.semas| && MayUp(s, i) && forall t | t in s.semas[i].waiters :: t in s.threads
       case HoldStep(i) => i < |s.semas| && s.history[i].isLock && s.current in s.history[i].owners
       case UnholdStep(i) => i < |s.semas| && s.semas[i].holder == Some(s.current)
  }

  ghost function After(s: System, step: Step): System
    requires Enabled(s, step)
  {
    match step
    case BlockStep => Dispatched(SetStatus(s, s.current, Blocked))
    case YieldStep => Dispatched(Yielded(s))
    case SleepStep(wake) => Dispatched(Asleep(s, wake))
    case ExitStep =>
      var n := Exited(s);
      if n.idle in n.threads && forall t | t in n.ready :: t in n.threads then Dispatched(n) else n
    case UnblockStep(t) => Unblocked(s, t)
    case CreateStep(t, p) => Created(s, t, p)
    case PriorityStep(t, p) => Reprioritised(s, t, p)
    case WakeStep(k) => Awoken(s, k)
    case DownStep(i) => if s.semas[i].value == 0 then Dispatched(Waiting(s, i)) else Taken(s, i)
    case TryDownStep(i) => if s.semas[i].value > 0 then TryTaken(s, i) else s
    case UpStep(i) =>
      if s.semas[i].waiters == [] then Raised(s, i)
      else
        assert s.semas[i].waiters[Best(s.semas[i].waiters, s.threads)] in s.semas[i].waiters;
        RaisedWaking(s, i, Best(s.semas[i].waiters, s.threads))
    case HoldStep(i) => SetHolder(s, i, Some(s.current))
    case UnholdStep(i) => SetHolder(s, i, None)
  }

  /** The step can be taken in s and leads to n. */
  ghost predicate Does(s: System, step: Step, n: System) { Enabled(s, step) && n == After(s, step) }

  /** Whoever leaves the processor with the system in state mid has taken a step. */
  lemma Leaves(s: System, step: Step, mid: System)
    requires Inv(s) && Enabled(s, step) && Switching(mid)
    requires match step
             case BlockStep => mid == SetStatus(s, s.current, Blocked)
             case YieldStep => mid == Yielded(s)
             case SleepStep(wake) => mid == Asleep(s, wake)
             case ExitStep => mid == Exited(s)
             case DownStep(i) => s.semas[i].value == 0 && mid == Waiting(s, i)
             case _ => false
    ensures mid.idle in mid.threads && (forall t | t in mid.ready :: t in mid.threads)
    ensures Does(s, step, Dispatched(mid))
  {
    hide Inv, Switching, Dispatched;
    SwitchKeeps(mid);
  }

  lemma SwitchKeeps(n: System)
    requires Switching(n)
    ensures n.idle in n.threads && (forall t | t in n.ready :: t in n.threads) && Inv(Dispatched(n))
  {
    hide SemasOk, WaitOk, PendingOk, Dispatched;
    DispatchedKeeps(n);
  }

  lemma LeavingKeeps(s: System, step: Step)
    requires Inv(s) && Enabled(s, step) && (step.BlockStep? || step.YieldStep? || step.SleepStep? || step.ExitStep?)
    ensures Inv(After(s, step))
  {
    hide Inv, Switching, Dispatched;
    match step
    case BlockStep => BlockedKeeps(s); SwitchKeeps(SetStatus(s, s.current, Blocked));
    case YieldStep => YieldedKeeps(s); SwitchKeeps(Yielded(s));
    case SleepStep(wake) => AsleepKeeps(s, wake); SwitchKeeps(Asleep(s, wake));
    case ExitStep => ExitedKeeps(s); SwitchKeeps(Exited(s));
  }

  lemma StepKeeps(s: System, step: Step)
    requires Inv(s) && Enabled(s, step)
    ensures Inv(After(s, step))
  {
    hide Inv, Switching, Dispatched, Best;
    match step
    case BlockStep => LeavingKeeps(s, step);
    case YieldStep => LeavingKeeps(s, step);
    case SleepStep(_) => LeavingKeeps(s, step);
    case ExitStep => LeavingKeeps(s, step);
    case UnblockStep(t) => UnblockedKeeps(s, t);
    case CreateStep(t, p) => CreatedKeeps(s, t, p);
    case PriorityStep(t, p) => ReprioritisedKeeps(s, t, p);
    case WakeStep(k) => AwokenKeeps(s, k);
    case DownStep(i) =>
      if s.semas[i].value == 0 {
        WaitingKeeps(s, i);
        SwitchKeeps(Waiting(s, i));
      } else {
        TakenKeeps(s, i);
      }
    case TryDownStep(i) => if s.semas[i].value > 0 { TryTakenKeeps(s, i); }
    case UpStep(i) =>
      if s.semas[i].waiters == [] {
        RaisedKeeps(s, i);
      } else {
        RaisedWakingKeeps(s, i, Best(s.semas[i].waiters, s.threads));
      }
    case HoldStep(i) => SetHolderKeeps(s, i, Some(s.current));
    case UnholdStep(i) => SetHolderKeeps(s, i, None);
  }

  /** states[k + 1] is states[k] after steps[k]. */
  ghost predicate Run(states: seq<System>, steps: seq<Step>) {
    |states| == |steps| + 1
    && forall k | 0 <= k < |steps| :: Does(states[k], steps[k], states[k + 1])
  }

  lemma RunOfNone(s: System)
    ensures Run([s], [])
  {}

  lemma RunOneMore(states: seq<System>, steps: seq<Step>, step: Step, n: System)
    requires Run(states, steps) && Does(states[|steps|], step, n)
    ensures Run(states + [n], steps + [step])
  {
    hide Does;
  }

  /** In every run everything above holds after every step: lists and statuses agree, values
      are what ups and downs make them, no wakeup is lost and locks exclude. */
  lemma {:induction false} EveryRun(states: seq<System>, steps: seq<Step>, k: nat)
    requires Run(states, steps) && Inv(states[0]) && k < |states|
    ensures Inv(states[k])
  {
    hide Inv, Enabled, After;
    if k > 0 {
      EveryRun(states, steps, k - 1);
      assert Does(states[k - 1], steps[k - 1], states[k]);
      StepKeeps(states[k - 1], steps[k - 1]);
    }
  }

  /** What that means for threads and lists at any point of any run. */
  lemma EveryRunMeans(states: seq<System>, steps: seq<Step>, k: nat)
    requires Run(states, steps) && Inv(states[0]) && k < |states|
    ensures var s := states[k];
            && (forall t | t in s.threads && t != s.idle :: s.threads[t].status == Ready <==> t in s.ready)
            && (forall i, j | 0 <= i < j < |s.ready| :: s.ready[i] != s.ready[j])
            && (forall t | t in s.threads :: s.threads[t].status == Running <==> t == s.current)
            && (forall i: nat | i < |s.semas| && s.semas[i].waiters != [] ::
                  s.semas[i].value <= |set t | t in s.pending && s.pending[t] == i && t !in s.semas[i].waiters|)
  {
    hide Run;
    EveryRun(states, steps, k);
    var s := states[k];
    forall i: nat | i < |s.semas| && s.semas[i].waiters != []
      ensures s.semas[i].value <= |set t | t in s.pending && s.pending[t] == i && t !in s.semas[i].waiters|
    {
      assert SemaOk(s, i);
      assert Woken(s, i) == set t | t in s.pending && s.pending[t] == i && t !in s.semas[i].waiters;
    }
  }

  // ---- A semaphore over a run ----

  /** The step gets past sema_down, or sema_try_down, of semaphore i. */
  predicate Takes(s: System, step: Step, i: nat) {
    (step == DownStep(i) || step == TryDownStep(i)) && i < |s.semas| && s.semas[i].value > 0
  }

  /** How many of the first k steps up semaphore i, and how many take from it. */
  function UpsBefore(steps: seq<Step>, i: nat, k: nat): nat
    requires k <= |steps|
  {
    if k == 0 then 0 else UpsBefore(steps, i, k - 1) + if steps[k - 1] == UpStep(i) then 1 else 0
  }

  function DownsBefore(states: seq<System>, steps: seq<Step>, i: nat, k: nat): nat
    requires k <= |steps| <= |states|
  {
    if k == 0 then 0
    else DownsBefore(states, steps, i, k - 1) + if Takes(states[k - 1], steps[k - 1], i) then 1 else 0
  }

  lemma StepValue(s: System, step: Step, i: nat)
    requires Inv(s) && Enabled(s, step) && i < |s.semas|
    ensures var n := After(s, step);
            && |n.semas| == |s.semas|
            && n.semas[i].value + (if Takes(s, step, i) then 1 else 0)
               == s.semas[i].value + (if step == UpStep(i) then 1 else 0)
  {
    hide Inv, Best, Without, Dispatched;
    SwitchSemas(s, step);
  }

  /** Leaving the processor touches no semaphore but that of a down that waits. */
  lemma SwitchSemas(s: System, step: Step)
    requires Inv(s) && Enabled(s, step)
    ensures step.BlockStep? || step.YieldStep? || step.SleepStep? || step.ExitStep? ==>
              After(s, step).semas == s.semas && After(s, step).history == s.history
    ensures step.DownStep? && s.semas[step.sema].value == 0 ==>
              var w := Waiting(s, step.sema); After(s, step).semas == w.semas && After(s, step).history == s.history
  {
    hide Inv, Best, Without;
  }

  /** At every point of every run the value is the first one plus the ups less the downs so far. */
  lemma {:induction false} ValueOfRun(states: seq<System>, steps: seq<Step>, i: nat, k: nat)
    requires Run(states, steps) && Inv(states[0]) && k < |states| && i < |states[0].semas|
    ensures |states[k].semas| == |states[0].semas|
    ensures states[k].semas[i].value
            == states[0].semas[i].value + UpsBefore(steps, i, k) - DownsBefore(states, steps, i, k)
  {
    hide Inv, Enabled, After, Takes;
    if k > 0 {
      ValueOfRun(states, steps, i, k - 1);
      EveryRun(states, steps, k - 1);
      assert Does(states[k - 1], steps[k - 1], states[k]);
      StepValue(states[k - 1], steps[k - 1], i);
    }
  }

  /** The threads that have got past a down of semaphore i and not come to an up since. */
  function Inside(states: seq<System>, steps: seq<Step>, i: nat, k: nat): set<nat>
    requires k <= |steps| <= |states|
  {
    if k == 0 then {}
    else
      var before, t := Inside(states, steps, i, k - 1), states[k - 1].current;
      if Takes(states[k - 1], steps[k - 1], i) then before + {t}
      else if steps[k - 1] == UpStep(i) then before - {t}
      else before
  }

  lemma StepOwners(s: System, step: Step, i: nat)
    requires Inv(s) && Enabled(s, step) && i < |s.semas| && i < |s.history| && s.history[i].isLock
    ensures var n := After(s, step);
            && i < |n.history| && n.history[i].isLock
            && n.history[i].owners == if Takes(s, step, i) then s.history[i].owners + {s.current}
                                      else if step == UpStep(i) then s.history[i].owners - {s.current}
                                      else s.history[i].owners
  {
    hide Inv, Best, Without, Dispatched;
    SwitchSemas(s, step);
  }

  lemma {:induction false} InsideIsOwners(states: seq<System>, steps: seq<Step>, i: nat, k: nat)
    requires Run(states, steps) && Inv(states[0]) && k < |states| && i < |states[0].semas|
    requires i < |states[0].history| && states[0].history[i].isLock && states[0].history[i].owners == {}
    ensures i < |states[k].history| && states[k].history[i].isLock
    ensures Inside(states, steps, i, k) == states[k].history[i].owners
  {
    hide Inv, Enabled, After, Takes;
    if k > 0 {
      InsideIsOwners(states, steps, i, k - 1);
      EveryRun(states, steps, k - 1);
      ValueOfRun(states, steps, i, k - 1);
      assert Does(states[k - 1], steps[k - 1], states[k]);
      StepOwners(states[k - 1], steps[k - 1], i);
    }
  }

  /** From a free lock on, at every point of every run at most one thread is between acquire and
      release, and while one is the value is 0. */
  lemma OneInside(states: seq<System>, steps: seq<Step>, i: nat, k: nat, t: nat, u: nat)
    requires Run(states, steps) && Inv(states[0]) && k < |states| && i < |states[0].semas|
    requires i < |states[0].history| && states[0].history[i].isLock && states[0].semas[i].value == 1
    requires t in Inside(states, steps, i, k) && u in Inside(states, steps, i, k)
    ensures t == u && i < |states[k].semas| && states[k].semas[i].value == 0
  {
    hide Inv, Enabled, After, Inside, Run;
    FreeHasNoOwner(states[0], i);
    InsideIsOwners(states, steps, i, k);
    ValueOfRun(states, steps, i, k);
    EveryRun(states, steps, k);
    MutualExclusion(states[k], i, t, u);
  }

  lemma FreeHasNoOwner(s: System, i: nat)
    requires Inv(s) && i < |s.semas| && i < |s.history| && s.history[i].isLock && s.semas[i].value == 1
    ensures s.history[i].owners == {}
  {
    assert SemaOk(s, i);
  }

  /** The running thread and, behind it, those on the ready list. */
  function Ring(s: System): seq<nat> { [s.current] + s.ready }

  ghost predicate OnePriority(s: System, p: int) {
    s.current != s.idle && forall t | t in Ring(s) :: t in s.threads && s.threads[t].priority == p
  }

  /** Among equals a yield is a rotation. */
  lemma YieldRotates(s: System, p: int)
    requires Inv(s) && Enabled(s, YieldStep) && OnePriority(s, p)
    ensures var n := After(s, YieldStep); Ring(n) == Ring(s)[1..] + Ring(s)[..1] && OnePriority(n, p)
  {
    hide Inv, Switching, Dispatched, RunsNext;
    var y, n := Yielded(s), After(s, YieldStep);
    assert y.ready == Ring(s)[1..] + Ring(s)[..1];
    DispatchedRuns(y);
    FirstOfEquals(y.ready, y.threads, p, y.idle, n.current, n.ready);
    assert Ring(n) == y.ready;
    SameThreads(y);
    forall t | t in Ring(n) ensures t in n.threads && n.threads[t].priority == p {
      assert t in Ring(s);
    }
    StepKeeps(s, YieldStep);
    assert n.current in Ring(n);
    NotIdle(s, n.current);
  }

  lemma FirstOfEquals(list: seq<nat>, threads: map<nat, Thread>, p: int, idle: nat, current: nat, ready: seq<nat>)
    requires RunsNext(list, threads, idle, current, ready) && list != []
    requires forall t | t in list :: t in threads && threads[t].priority == p
    ensures [current] + ready == list
  {
    var k: nat :| k < |list| && FirstHighest(list, threads, k)
                  && current == list[k] && ready == list[..k] + list[k + 1..];
    assert list[0] in list && list[k] in list;
    assert k == 0;
  }

  lemma SameThreads(s: System)
    requires s.idle in s.threads && forall t | t in s.ready :: t in s.threads
    ensures var n := Dispatched(s);
            n.threads.Keys == s.threads.Keys && n.idle == s.idle
            && forall t | t in n.threads :: n.threads[t].priority == s.threads[t].priority
  {
    hide Best;
  }

  lemma NotIdle(s: System, t: nat)
    requires Inv(s) && t in Ring(s) && s.current != s.idle
    ensures t != s.idle
  {}

  lemma RotatedOnce(r: seq<nat>, m: nat)
    requires m < |r|
    ensures var c := r[m..] + r[..m];
            c[1..] + c[..1] == if m + 1 < |r| then r[m + 1..] + r[..m + 1] else r[0..] + r[..0]
  {
    var c := r[m..] + r[..m];
    assert c[1..] == r[m + 1..] + r[..m] && c[..1] == [r[m]];
    assert r[..m + 1] == r[..m] + [r[m]];
  }

  /** Threads of one priority that only yield take turns, in the order of the ready list: after
      q full rounds and m yields more the ring has gone round by m. */
  lemma {:induction false} RoundRobin(states: seq<System>, steps: seq<Step>, p: int, q: nat, m: nat)
    requires Run(states, steps) && Inv(states[0]) && OnePriority(states[0], p)
    requires m < |Ring(states[0])| && q * |Ring(states[0])| + m < |states|
    requires forall i | 0 <= i < |steps| :: steps[i] == YieldStep
    ensures var r := Ring(states[0]); var k := q * |r| + m;
            Ring(states[k]) == r[m..] + r[..m] && OnePriority(states[k], p)
    decreases q, m
  {
    hide Inv, Enabled, After, OnePriority, Ring;
    var r := Ring(states[0]);
    var k := q * |r| + m;
    if k == 0 {
      assert r[0..] + r[..0] == r;
    } else {
      var q', m' := if m > 0 then q else q - 1, if m > 0 then m - 1 else |r| - 1;
      assert q' * |r| + m' == k - 1 by { assert (q - 1) * |r| == q * |r| - |r|; }
      RoundRobin(states, steps, p, q', m');
      EveryRun(states, steps, k - 1);
      assert Does(states[k - 1], steps[k - 1], states[k]);
      YieldRotates(states[k - 1], p);
      RotatedOnce(r, m');
    }
  }

  class Threads {
    var threads: map<nat, Thread>
    var ready: seq<nat>
    var sleeping: seq<nat>
    var current: nat
    const idle: nat
    var semas: seq<Sema>
    var now: int
    ghost var pending: map<nat, nat>
    ghost var history: seq<History>

    ghost function State(): System
      reads this
    {
      System(threads, ready, sleeping, current, idle, semas, pending, history)
    }

    ghost predicate Valid()
      reads this
    {
      Inv(State())
    }

    /** After thread_start: the initial thread runs and idle is blocked. */
    constructor (initial: nat, idleThread: nat)
      requires initial != idleThread
      ensures Valid() && current == initial && idle == idleThread && ready == [] && sleeping == [] && semas == []
      ensures now == 0
      ensures threads == map[initial := Thread(Running, 31, -1), idleThread := Thread(Blocked, 0, -1)]
    {
      threads := map[initial := Thread(Running, 31, -1), idleThread := Thread(Blocked, PRI_MIN, -1)];
      ready, sleeping, current, idle := [], [], initial, idleThread;
      semas, now, pending, history := [], 0, map[], [];
    }

    /** list_highest_priority. */
    method HighestPriority(list: seq<nat>) returns (r: Option<nat>)
      requires forall t | t in list :: t in threads && PRI_MIN <= threads[t].priority <= PRI_MAX
      ensures list == [] ==> r.None?
      ensures list != [] ==> r == Some(Best(list, threads)) && FirstHighest(list, threads, r.value)
    {
      hide FirstHighest;
      r := None;
      var max := -1;
      var i := 0;
      while i < |list|
        invariant i <= |list| && (i == 0 ==> r.None? && max == -1)
        invariant i > 0 ==> r == Some(Best(list[..i], threads)) && max == threads[list[r.value]].priority
      {
        assert list[..i + 1][..i] == list[..i];
        assert list[i] in list;
        var pri := threads[list[i]].priority;
        if pri > max {
          max, r := pri, Some(i);
        }
        i := i + 1;
      }
      assert list[..i] == list;
      if list != [] {
        BestIsFirstHighest(list, threads);
      }
    }

    /** schedule, with next_thread_to_run: the first of the highest priority on the ready list
        leaves it and runs; idle does when the list is empty. */
    method Schedule() returns (ghost k: nat)
      requires Switching(State())
      modifies `threads, `ready, `current
      ensures Valid() && State() == Dispatched(old(State())) && current in old(threads)
      ensures threads == old(threads)[current := old(threads)[current].(status := Running)]
      ensures old(ready) == [] ==> current == idle && ready == []
      ensures old(ready) != [] ==>
                && k < |old(ready)| && current == old(ready)[k] && ready == old(ready)[..k] + old(ready)[k + 1..]
                && (forall j | 0 <= j < |old(ready)| ::
                      old(ready)[j] in old(threads)
                      && old(threads)[old(ready)[j]].priority <= old(threads)[current].priority)
                && (forall j | 0 <= j < k :: old(threads)[old(ready)[j]].priority < old(threads)[current].priority)
      ensures RunsNext(old(ready), old(threads), idle, current, ready)
    {
      hide Inv, Switching, Best, Without, RunsNext, FirstHighest;
      SwitchFacts(State());
      DispatchedKeeps(State());
      DispatchedRuns(State());
      k := RunsOnFields(ready, threads, idle, Dispatched(State()).current, Dispatched(State()).ready);
      var next := idle;
      var best := HighestPriority(ready);
      if best.Some? {
        next := ready[best.value];
        ready := Without(ready, best.value);
      }
      threads := threads[next := threads[next].(status := Running)];
      current := next;
    }

    /** thread_block, by a thread on no list. */
    method Block()
      requires Valid() && current !in pending
      modifies `threads, `ready, `current
      ensures Valid() && Does(old(State()), BlockStep, State())
      ensures Left(old(threads), old(current), Blocked, current, threads)
      ensures RunsNext(old(ready), old(threads), idle, current, ready)
    {
      hide Inv, Switching, RunsNext, Left, Dispatched, Does, After;
      SemaFacts(State());
      BlockedKeeps(State());
      Leaves(State(), BlockStep, SetStatus(State(), current, Blocked));
      threads := threads[current := threads[current].(status := Blocked)];
      ghost var a := threads;
      ghost var k := Schedule();
      LeftBy(old(threads), old(current), Blocked, current, a, threads);
      SamePriorities(old(ready), a, old(threads), idle, current, ready);
    }

    /** thread_yield. */
    method Yield()
      requires Valid()
      modifies `threads, `ready, `current
      ensures Valid() && Does(old(State()), YieldStep, State())
      ensures Left(old(threads), old(current), Ready, current, threads)
      ensures RunsNext(if old(current) == idle then old(ready) else old(ready) + [old(current)],
                       old(threads), idle, current, ready)
    {
      hide Inv, Switching, RunsNext, Left, Dispatched, Does, After;
      SemaFacts(State());
      YieldedKeeps(State());
      Leaves(State(), YieldStep, Yielded(State()));
      if current != idle {
        ready := ready + [current];
      }
      threads := threads[current := threads[current].(status := Ready)];
      ghost var a, list := threads, ready;
      ghost var k := Schedule();
      LeftBy(old(threads), old(current), Ready, current, a, threads);
      SamePriorities(list, a, old(threads), idle, current, ready);
    }

    /** timer_sleep, the time having been read at `start`. */
    method Sleep(start: int, ticks: int)
      requires Valid() && current !in pending && current != idle
      modifies `threads, `ready, `sleeping, `current
      ensures Valid() && Does(old(State()), SleepStep(start + ticks), State())
      ensures sleeping == old(sleeping) + [old(current)] && old(current) in threads && old(current) in old(threads)
      ensures threads[old(current)] == old(threads)[old(current)].(status := Blocked, wakeTime := start + ticks)
      ensures Left(old(threads)[old(current) := threads[old(current)]], old(current), Blocked, current, threads)
      ensures RunsNext(old(ready), old(threads), idle, current, ready)
    {
      hide Inv, Switching, RunsNext, Left, Dispatched, Does, After;
      SemaFacts(State());
      AsleepKeeps(State(), start + ticks);
      Leaves(State(), SleepStep(start + ticks), Asleep(State(), start + ticks));
      sleeping := sleeping + [current];
      threads := threads[current := threads[current].(status := Blocked, wakeTime := start + ticks)];
      ghost var s := State();
      NotReady(s, current);
      ghost var k := Schedule();
      RunsOneOf(old(ready), s.threads, idle, current, ready);
      SleptBy(old(threads), old(current), start + ticks, current, s.threads, threads);
      SamePriorities(old(ready), s.threads, old(threads), idle, current, ready);
    }

    /** thread_exit. */
    method Exit()
      requires Valid() && current !in pending && current != idle
      modifies `threads, `ready, `current
      ensures Valid() && Does(old(State()), ExitStep, State())
      ensures old(current) !in threads && threads.Keys == old(threads).Keys - {old(current)} && current in threads
      ensures forall t | t in threads ::
                threads[t] == if t == current then old(threads)[t].(status := Running) else old(threads)[t]
      ensures RunsNext(old(ready), old(threads), idle, current, ready)
    {
      hide Inv, Switching, RunsNext, Left, Dispatched, Does, After;
      SemaFacts(State());
      ExitedKeeps(State());
      Leaves(State(), ExitStep, Exited(State()));
      threads := threads - {current};
      ghost var a := threads;
      SwitchFacts(State());
      ghost var k := Schedule();
      SamePriorities(old(ready), a, old(threads), idle, current, ready);
    }

    /** thread_unblock of a thread that is on no list. */
    method Unblock(t: nat)
      requires Valid() && t in threads && t != idle && threads[t].status == Blocked && t !in sleeping && t !in pending
      modifies `threads, `ready
      ensures Valid() && Does(old(State()), UnblockStep(t), State())
      ensures ready == old(ready) + [t] && threads == old(threads)[t := old(threads)[t].(status := Ready)]
    {
      UnblockedKeeps(State(), t);
      ready := ready + [t];
      threads := threads[t := threads[t].(status := Ready)];
    }

    /** thread_create. */
    method Create(t: nat, priority: int)
      requires Valid() && t !in threads && PRI_MIN <= priority <= PRI_MAX
      modifies `threads, `ready
      ensures Valid() && Does(old(State()), CreateStep(t, priority), State())
      ensures ready == old(ready) + [t] && threads == old(threads)[t := Thread(Ready, priority, -1)]
    {
      hide Inv;
      SemaFacts(State());
      CreatedKeeps(State(), t, priority);
      threads := threads[t := Thread(Blocked, priority, -1)];
      ready := ready + [t];
      threads := threads[t := threads[t].(status := Ready)];
      assert State() == Created(old(State()), t, priority);
    }

    /** Any change of a priority within its range. */
    method SetPriority(t: nat, priority: int)
      requires Valid() && t in threads && PRI_MIN <= priority <= PRI_MAX
      modifies `threads
      ensures Valid() && Does(old(State()), PriorityStep(t, priority), State())
      ensures threads == old(threads)[t := old(threads)[t].(priority := priority)]
    {
      hide Inv;
      SemaFacts(State());
      ReprioritisedKeeps(State(), t, priority);
      threads := threads[t := threads[t].(priority := priority)];
    }

    /** What wake_sleeping_threads does with the sleeper at position k when its time has come. */
    method Wake(k: nat)
      requires Valid() && k < |sleeping|
      modifies `threads, `ready, `sleeping
      ensures Valid() && Does(old(State()), WakeStep(k), State()) && old(sleeping)[k] in old(threads)
      ensures sleeping == old(sleeping)[..k] + old(sleeping)[k + 1..] && ready == old(ready) + [old(sleeping)[k]]
      ensures var t := old(sleeping)[k];
              threads == old(threads)[t := old(threads)[t].(status := Ready, wakeTime := -1)]
    {
      hide Inv;
      SemaFacts(State());
      SleepersKnown(State());
      var t := sleeping[k];
      AwokenKeeps(State(), k);
      threads := threads[t := threads[t].(status := Ready, wakeTime := -1)];
      sleeping := Without(sleeping, k);
      ready := ready + [t];
    }

    /** timer_interrupt with wake_sleeping_threads. */
    method Tick() returns (ghost states: seq<System>, ghost steps: seq<Step>)
      requires Valid()
      modifies `now, `threads, `ready, `sleeping
      ensures Valid() && now == old(now) + 1
      ensures Run(states, steps) && states[0] == old(State()) && states[|steps|] == State()
      ensures forall t | t in old(sleeping) :: t in old(threads)
      ensures sleeping == Late(old(sleeping), old(threads), now)
      ensures ready == old(ready) + Due(old(sleeping), old(threads), now)
      ensures WokenOnly(old(threads), threads, Due(old(sleeping), old(threads), now))
      ensures forall t | t in sleeping :: t in threads && threads[t].wakeTime > now
    {
      hide Inv, Ticking, Without, Run, Does;
      now := now + 1;
      ghost var s := State();
      states, steps := [s], [];
      RunOfNone(s);
      SleepersKnown(s);
      ghost var j := 0;
      var k := 0;
      TickStart(s, now);
      while k < |sleeping|
        invariant now == old(now) + 1 && Ticking(State(), s, j, k, now)
        invariant |states| == |steps| + 1 && Run(states, steps) && states[0] == s && states[|steps|] == State()
        decreases |s.sleeping| - j
      {
        TickBounds(State(), s, j, k, now);
        TickStep(State(), s, j, k, now);
        var t := sleeping[k];
        if now >= threads[t].wakeTime {
          ghost var step := WakeStep(k);
          RemovesAt(sleeping, k);
          Wake(k);
          RunOneMore(states, steps, step, State());
          states, steps := states + [State()], steps + [step];
        } else {
          k := k + 1;
        }
        j := j + 1;
      }
      TickEnd(State(), s, j, k, now);
    }

    /** sema_init, and lock_init when isLock. */
    method NewSemaphore(value: nat, isLock: bool) returns (i: nat)
      requires Valid() && (isLock ==> value == 1)
      modifies `semas, `history
      ensures Valid() && i == |old(semas)| && semas == old(semas) + [Sema(value, [], None)]
      ensures history == old(history) + [History(value, 0, 0, isLock, {})]
    {
      hide Inv;
      NewSemaKeeps(State(), value, isLock);
      i := |semas|;
      semas := semas + [Sema(value, [], None)];
      history := history + [History(value, 0, 0, isLock, {})];
    }

    /** One turn of sema_down's loop: the value is taken, or the thread waits and another runs. */
    method SemaDown(i: nat) returns (taken: bool)
      requires Valid() && i < |semas| && current != idle && (current in pending ==> pending[current] == i)
      modifies `threads, `ready, `current, `semas, `pending, `history
      ensures Valid() && taken == (old(semas[i].value) > 0) && Does(old(State()), DownStep(i), State())
      ensures !taken ==>
                && semas == old(semas)[i := old(semas)[i].(waiters := old(semas)[i].waiters + [old(current)])]
                && Left(old(threads), old(current), Blocked, current, threads)
                && RunsNext(old(ready), old(threads), idle, current, ready)
      ensures taken ==>
                && semas == old(semas)[i := old(semas)[i].(value := old(semas)[i].value - 1)]
                && threads == old(threads) && ready == old(ready) && current == old(current)
    {
      hide Inv, Switching, RunsNext, Left, Dispatched, Does, After;
      SemaFacts(State());
      if semas[i].value == 0 {
        WaitingKeeps(State(), i);
        Leaves(State(), DownStep(i), Waiting(State(), i));
        semas := semas[i := semas[i].(waiters := semas[i].waiters + [current])];
        threads := threads[current := threads[current].(status := Blocked)];
        pending := pending[current := i];
        ghost var a := threads;
        ghost var k := Schedule();
        LeftBy(old(threads), old(current), Blocked, current, a, threads);
        SamePriorities(old(ready), a, old(threads), idle, current, ready);
        taken := false;
      } else {
        TakenKeeps(State(), i);
        TakesStep(State(), i);
        semas := semas[i := semas[i].(value := semas[i].value - 1)];
        history := history[i := AfterDown(history[i], current)];
        pending := pending - {current};
        taken := true;
      }
    }

    /** sema_try_down. */
    method SemaTryDown(i: nat) returns (success: bool)
      requires Valid() && i < |semas|
      modifies `semas, `history
      ensures Valid() && success == (old(semas[i].value) > 0) && Does(old(State()), TryDownStep(i), State())
      ensures success ==> semas == old(semas)[i := old(semas)[i].(value := old(semas)[i].value - 1)]
      ensures !success ==> State() == old(State())
    {
      hide Inv;
      SemaFacts(State());
      if semas[i].value > 0 {
        TryTakenKeeps(State(), i);
        semas := semas[i := semas[i].(value := semas[i].value - 1)];
        history := history[i := AfterDown(history[i], current)];
        success := true;
      } else {
        success := false;
      }
    }

    /** sema_up: wakes the first waiter of maximal priority, if there is one. */
    method SemaUp(i: nat)
      requires Valid() && i < |semas| && MayUp(State(), i)
      modifies `threads, `ready, `semas, `history
      ensures Valid() && forall t | t in old(semas[i].waiters) :: t in old(threads)
      ensures Does(old(State()), UpStep(i), State())
      ensures Upped(old(semas)[i], old(threads), old(ready), semas[i], threads, ready)
      ensures semas == old(semas)[i := semas[i]]
    {
      hide Inv, Without, Best, FirstHighest, Does, After;
      SemaFacts(State());
      WaitersKnown(State(), i);
      ghost var s := State();
      UpsStep(s, i);
      if semas[i].waiters != [] {
        var high := HighestPriority(semas[i].waiters);
        RemovesAt(semas[i].waiters, high.value);
        RaisedWakingKeeps(State(), i, high.value);
        var t := semas[i].waiters[high.value];
        semas := semas[i := semas[i].(waiters := Without(semas[i].waiters, high.value))];
        ready := ready + [t];
        threads := threads[t := threads[t].(status := Ready)];
      } else {
        RaisedKeeps(State(), i);
      }
      semas := semas[i := semas[i].(value := semas[i].value + 1)];
      history := history[i := AfterUp(history[i], current)];
      assert State() == if s.semas[i].waiters == [] then Raised(s, i)
          else RaisedWaking(s, i, Best(s.semas[i].waiters, s.threads));
    }

    /** The end of lock_acquire, once its sema_down is through, and of lock_try_acquire. */
    method BecomeHolder(i: nat)
      requires Valid() && i < |semas| && history[i].isLock && current in history[i].owners
      modifies `semas
      ensures Valid() && Does(old(State()), HoldStep(i), State())
      ensures semas == old(semas)[i := old(semas)[i].(holder := Some(current))]
      ensures i < |history| && forall t | t in history[i].owners :: t == current
    {
      hide Inv;
      SemaFacts(State());
      SetHolderKeeps(State(), i, Some(current));
      forall t | t in history[i].owners ensures t == current {
        MutualExclusion(State(), i, t, current);
      }
      semas := semas[i := semas[i].(holder := Some(current))];
    }

    /** lock_release: only the holder may call it, and it is the one owner. */
    method LockRelease(i: nat)
      requires Valid() && i < |semas| && history[i].isLock && semas[i].holder == Some(current)
      modifies `threads, `ready, `semas, `history
      ensures Valid() && |semas| == |old(semas)| == |history| && semas[i].holder.None? && history[i].owners == {}
      ensures semas[i].value == 1 && old(semas)[i].value == 0 && semas == old(semas)[i := semas[i]]
      ensures Upped(old(semas)[i].(holder := None), old(threads), old(ready), semas[i], threads, ready)
      ensures var s := old(State()).(semas := old(semas)[i := old(semas)[i].(holder := None)]);
              Does(old(State()), UnholdStep(i), s) && Does(s, UpStep(i), State())
    {
      hide Inv, Without, Best;
      SemaFacts(State());
      HolderOwns(State(), i);
      SetHolderKeeps(State(), i, None);
      semas := semas[i := semas[i].(holder := None)];
      SemaUp(i);
      SemaFacts(State());
      OnlyOwnerLeft(State(), i);
    }
  }

  lemma UpsStep(s: System, i: nat)
    requires Inv(s) && Enabled(s, UpStep(i))
    ensures s.semas[i].waiters == [] ==> Does(s, UpStep(i), Raised(s, i))
    ensures s.semas[i].waiters != [] ==>
              var k := Best(s.semas[i].waiters, s.threads);
              s.semas[i].waiters[k] in s.threads && Does(s, UpStep(i), RaisedWaking(s, i, k))
  {
    hide Inv, Best;
    if s.semas[i].waiters != [] {
      assert s.semas[i].waiters[Best(s.semas[i].waiters, s.threads)] in s.semas[i].waiters;
    }
  }

  lemma TakesStep(s: System, i: nat)
    requires Inv(s) && Enabled(s, DownStep(i)) && s.semas[i].value > 0
    ensures Does(s, DownStep(i), Taken(s, i))
  {
    hide Inv;
  }

  lemma SemaFacts(s: System)
    requires Inv(s)
    ensures |s.history| == |s.semas| && (forall t | t in s.ready :: t in s.threads)
    ensures s.idle in s.threads && s.current in s.threads
  {}

  /** A blocked thread is not on the ready list, and whoever is has a record. */
  lemma NotReady(s: System, t: nat)
    requires Switching(s) && t in s.threads && t != s.idle && s.threads[t].status == Blocked
    ensures t !in s.ready && forall u | u in s.ready :: u in s.threads && s.threads[u].status == Ready
  {}

  lemma SwitchFacts(s: System)
    requires Switching(s)
    ensures s.idle in s.threads
    ensures forall t | t in s.ready :: t in s.threads && PRI_MIN <= s.threads[t].priority <= PRI_MAX
  {}

  /** RunsNext, spelt out. */
  lemma RunsOnFields(list: seq<nat>, threads: map<nat, Thread>, idle: nat, current: nat, ready: seq<nat>)
    returns (k: nat)
    requires RunsNext(list, threads, idle, current, ready)
    ensures list == [] ==> current == idle && ready == []
    ensures list != [] ==>
              && k < |list| && current == list[k] && current in threads && ready == list[..k] + list[k + 1..]
              && (forall j | 0 <= j < |list| ::
                    list[j] in threads && threads[list[j]].priority <= threads[current].priority)
              && (forall j | 0 <= j < k :: threads[list[j]].priority < threads[current].priority)
  {
    k := 0;
    if list != [] {
      k :| k < |list| && FirstHighest(list, threads, k) && current == list[k] && ready == list[..k] + list[k + 1..];
      assert list[k] in list;
    }
  }

  lemma RemovesAt(list: seq<nat>, k: nat)
    requires k < |list|
    ensures Without(list, k) == list[..k] + list[k + 1..]
  {}

  lemma WaitersKnown(s: System, i: nat)
    requires Inv(s) && i < |s.semas|
    ensures forall t | t in s.semas[i].waiters :: t in s.threads && PRI_MIN <= s.threads[t].priority <= PRI_MAX
  {
    assert WaitOk(s, i);
  }

  lemma HolderOwns(s: System, i: nat)
    requires Inv(s) && i < |s.semas| && s.history[i].isLock && s.semas[i].holder.Some?
    ensures s.semas[i].holder.value in s.history[i].owners && s.semas[i].value == 0
    ensures s.history[i].owners == {s.semas[i].holder.value}
  {
    assert SemaOk(s, i);
    forall t | t in s.history[i].owners ensures t == s.semas[i].holder.value {
      MutualExclusion(s, i, t, s.semas[i].holder.value);
    }
  }

  lemma OnlyOwnerLeft(s: System, i: nat)
    requires Inv(s) && i < |s.semas| && s.history[i].isLock && s.history[i].owners == {}
    ensures s.semas[i].value == 1
  {
    assert SemaOk(s, i);
  }

  lemma NewSemaKeeps(s: System, value: nat, isLock: bool)
    requires Inv(s) && (isLock ==> value == 1)
    ensures Inv(s.(semas := s.semas + [Sema(value, [], None)],
                   history := s.history + [History(value, 0, 0, isLock, {})]))
  {
    var n := s.(semas := s.semas + [Sema(value, [], None)], history := s.history + [History(value, 0, 0, isLock, {})]);
    forall j: nat | j < |n.semas| ensures WaitOk(n, j) {
      if j < |s.semas| { assert WaitOk(s, j); }
    }
    forall t | t in n.pending ensures PendingOk(n, t) { assert PendingOk(s, t); }
    forall j: nat | j < |n.semas| ensures SemaOk(n, j) {
      if j < |s.semas| {
        assert SemaOk(s, j) && Woken(n, j) == Woken(s, j);
      }
    }
  }

  lemma SleepersKnown(s: System)
    requires Inv(s)
    ensures forall t | t in s.sleeping :: t in s.threads
  {}

  lemma NoSleepers(a: map<nat, Thread>, now: int)
    ensures Late([], a, now) == [] && Due([], a, now) == [] && WokenOnly(a, a, [])
  {}

  /** Sleepers 0 .. j of s have been inspected, and k of them left where they are. */
  ghost predicate Ticking(n: System, s: System, j: nat, k: nat, now: int) {
    && Inv(n) && (forall t | t in s.sleeping :: t in s.threads) && j <= |s.sleeping|
    && k == |Late(s.sleeping[..j], s.threads, now)|
    && n.sleeping == Late(s.sleeping[..j], s.threads, now) + s.sleeping[j..]
    && n.ready == s.ready + Due(s.sleeping[..j], s.threads, now)
    && WokenOnly(s.threads, n.threads, Due(s.sleeping[..j], s.threads, now))
  }

  lemma TickStart(s: System, now: int)
    requires Inv(s)
    ensures Ticking(s, s, 0, 0, now)
  {
    hide Inv, Late, Due;
    SleepersKnown(s);
    NoSleepers(s.threads, now);
    assert s.sleeping[..0] == [];
  }

  lemma TickBounds(n: System, s: System, j: nat, k: nat, now: int)
    requires Ticking(n, s, j, k, now) && k < |n.sleeping|
    ensures j < |s.sleeping| && n.sleeping[k] == s.sleeping[j] && n.sleeping[k] in n.threads && Inv(n)
  {
    hide Inv, Late, Due;
    SleepersKnown(n);
    assert n.sleeping[k] in n.sleeping;
  }

  lemma TickStep(n: System, s: System, j: nat, k: nat, now: int)
    requires Ticking(n, s, j, k, now) && k < |n.sleeping| && j < |s.sleeping| && n.sleeping[k] in n.threads
    requires n.sleeping[k] == s.sleeping[j]
    ensures if now >= n.threads[n.sleeping[k]].wakeTime then Ticking(Awoken(n, k), s, j + 1, k, now)
            else Ticking(n, s, j + 1, k + 1, now)
  {
    hide Inv, Late, Due, Without, WokenOnly;
    var list, t := s.sleeping, s.sleeping[j];
    OneSleeper(list, s.threads, now, j);
    NotYetWoken(n, s.threads, list, j, now);
    AwokenKeeps(n, k);
    if now >= n.threads[t].wakeTime {
      RemoveHere(Late(list[..j], s.threads, now), list, j);
      OneMoreWoken(s.threads, n.threads, Due(list[..j], s.threads, now), t);
    } else {
      assert Late(list[..j], s.threads, now) + list[j..] == Late(list[..j + 1], s.threads, now) + list[j + 1..];
      assert Due(list[..j + 1], s.threads, now) == Due(list[..j], s.threads, now);
    }
  }

  lemma OneMoreWoken(a: map<nat, Thread>, b: map<nat, Thread>, due: seq<nat>, t: nat)
    requires WokenOnly(a, b, due) && t in a && t !in due
    ensures t in b && WokenOnly(a, b[t := b[t].(status := Ready, wakeTime := -1)], due + [t])
  {}

  lemma TickEnd(n: System, s: System, j: nat, k: nat, now: int)
    requires Ticking(n, s, j, k, now) && k >= |n.sleeping|
    ensures Inv(n) && n.sleeping == Late(s.sleeping, s.threads, now)
    ensures n.ready == s.ready + Due(s.sleeping, s.threads, now)
    ensures WokenOnly(s.threads, n.threads, Due(s.sleeping, s.threads, now))
    ensures forall t | t in n.sleeping :: t in n.threads && n.threads[t].wakeTime > now
  {
    hide Inv, Late, Due;
    assert s.sleeping[..j] == s.sleeping && s.sleeping[j..] == [];
    LateSleepers(s.threads, n.threads, s.sleeping, now);
  }

  /** The sleeper under inspection still has its own wake time. */
  lemma NotYetWoken(s: System, a: map<nat, Thread>, list: seq<nat>, j: nat, now: int)
    requires Inv(s) && (forall t | t in list :: t in a) && j < |list| && WokenOnly(a, s.threads, Due(list[..j], a, now))
    requires s.sleeping == Late(list[..j], a, now) + list[j..]
    ensures list[j] in s.threads && s.threads[list[j]] == a[list[j]] && list[j] !in Due(list[..j], a, now)
  {
    hide Late, Due, SemasOk, WaitOk, PendingOk;
    assert s.sleeping[|Late(list[..j], a, now)|] == list[j];
    assert list[j] in s.sleeping;
  }

  lemma RemoveHere(late: seq<nat>, list: seq<nat>, j: nat)
    requires j < |list|
    ensures Without(late + list[j..], |late|) == late + list[j + 1..]
  {}

  lemma LateSleepers(a: map<nat, Thread>, b: map<nat, Thread>, list: seq<nat>, now: int)
    requires (forall t | t in list :: t in a) && WokenOnly(a, b, Due(list, a, now))
    ensures forall t | t in Late(list, a, now) :: t in b && b[t].wakeTime > now
  {}
}
