/** Threads, the lists they stand on and the semaphores they wait for (src/threads/thread.c,
    src/threads/synch.c), as a value; what every step keeps. The steps themselves are the
    methods of module Scheduler. */
module ThreadState {
  import opened Lists
  import opened Options

  const PRI_MIN := 0
  const PRI_MAX := 63

  datatype Status = Running | Ready | Blocked

  datatype Thread = Thread(status: Status, priority: int, wakeTime: int)

  /** A semaphore, and the lock around it if there is one: its holder field. */
  datatype Sema = Sema(value: nat, waiters: seq<nat>, holder: Option<nat>)

  /** What happened to a semaphore so far: its first value, the completed ups and downs, and,
      for the semaphore of a lock, the threads between the end of a down and the next up. */
  datatype History = History(initial: nat, ups: nat, downs: nat, isLock: bool, owners: set<nat>)

  /** `pending` maps each thread inside sema_down's loop to its semaphore. */
  datatype System = System(threads: map<nat, Thread>, ready: seq<nat>, sleeping: seq<nat>, current: nat, idle: nat,
                           semas: seq<Sema>, pending: map<nat, nat>, history: seq<History>)

  // ---- What every step keeps ----

  ghost predicate Known(s: System, t: nat) { t in s.threads && t != s.idle }

  /** A thread other than idle is READY exactly when it is on the ready list, once. */
  ghost predicate ReadyOk(s: System) {
    NoDup(s.ready) && (forall t | t in s.ready :: Known(s, t))
    && forall t | Known(s, t) :: s.threads[t].status == Ready <==> t in s.ready
  }

  /** Sleepers are blocked, each listed once, and wait for nothing else. */
  ghost predicate SleepOk(s: System) {
    NoDup(s.sleeping) && forall t | t in s.sleeping :: Known(s, t) && s.threads[t].status == Blocked && t !in s.pending
  }

  /** Those on a wait list are blocked, listed once, and inside sema_down of that semaphore. */
  ghost predicate WaitOk(s: System, i: nat)
    requires i < |s.semas|
  {
    NoDup(s.semas[i].waiters) && forall t | t in s.semas[i].waiters ::
      Known(s, t) && s.threads[t].status == Blocked && t in s.pending && s.pending[t] == i
  }

  /** A thread inside sema_down is on that wait list, or about to test the value again. */
  ghost predicate PendingOk(s: System, t: nat)
    requires t in s.pending
  {
    s.pending[t] < |s.semas| && Known(s, t)
    && (t in s.semas[s.pending[t]].waiters || s.threads[t].status != Blocked)
  }

  ghost predicate QueuesOk(s: System) {
    && s.idle in s.threads && ReadyOk(s) && SleepOk(s) && |s.history| == |s.semas|
    && (forall t | t in s.threads :: PRI_MIN <= s.threads[t].priority <= PRI_MAX)
    && (forall i: nat | i < |s.semas| :: WaitOk(s, i))
    && (forall t | t in s.pending :: PendingOk(s, t))
  }

  /** The woken threads that have yet to look at the value of semaphore i again. */
  ghost function Woken(s: System, i: nat): set<nat>
    requires i < |s.semas|
  {
    set t | t in s.pending && s.pending[t] == i && t !in s.semas[i].waiters
  }

  /** No wakeup is lost, and the value is what ups and downs make it; a lock is free or has
      one owner, who is the holder if anyone is. */
  ghost predicate SemaOk(s: System, i: nat)
    requires i < |s.semas| == |s.history|
  {
    var a, h := s.semas[i], s.history[i];
    && (a.waiters != [] ==> a.value <= |Woken(s, i)|)
    && a.value + h.downs == h.initial + h.ups
    && (h.isLock ==> a.value + |h.owners| == 1)
    && (h.isLock && a.holder.Some? ==> a.holder.value in h.owners)
  }

  ghost predicate SemasOk(s: System)
    requires |s.history| == |s.semas|
  {
    forall i: nat | i < |s.semas| :: SemaOk(s, i)
  }

  /** The current thread is the running one, and the only one. */
  ghost predicate CurrentOk(s: System) {
    s.current in s.threads && forall t | t in s.threads :: s.threads[t].status == Running <==> t == s.current
  }

  ghost predicate NoneRunning(s: System) { forall t | t in s.threads :: s.threads[t].status != Running }

  ghost predicate Inv(s: System) { QueuesOk(s) && SemasOk(s) && CurrentOk(s) }

  /** Between a thread leaving the processor and the next one entering. */
  ghost predicate Switching(s: System) { QueuesOk(s) && SemasOk(s) && NoneRunning(s) }

  /** The three kinds of list are disjoint. */
  lemma ListsDisjoint(s: System, t: nat, i: nat, j: nat)
    requires Inv(s) && i < |s.semas| && j < |s.semas| && i != j
    ensures !(t in s.ready && t in s.sleeping) && !(t in s.ready && t in s.semas[i].waiters)
    ensures !(t in s.sleeping && t in s.semas[i].waiters)
    ensures !(t in s.semas[i].waiters && t in s.semas[j].waiters)
  {
    assert WaitOk(s, i) && WaitOk(s, j);
  }

  /** If anyone waits while the value is positive, some woken thread is ready or running and
      will test the value: no one waits for good. */
  lemma NoLostWakeup(s: System, i: nat) returns (t: nat)
    requires Inv(s) && i < |s.semas| && s.semas[i].waiters != [] && s.semas[i].value > 0
    ensures t in s.pending && s.pending[t] == i && t !in s.semas[i].waiters && t in s.threads
    ensures s.threads[t].status != Blocked
  {
    assert SemaOk(s, i);
    var w := Woken(s, i);
    assert w != {};
    t :| t in w;
    assert PendingOk(s, t);
  }

  /** At most one thread is between acquire and release, and none while the lock is free. */
  lemma MutualExclusion(s: System, i: nat, t: nat, u: nat)
    requires Inv(s) && i < |s.semas| && s.history[i].isLock && t in s.history[i].owners && u in s.history[i].owners
    ensures t == u && s.semas[i].value == 0
  {
    assert SemaOk(s, i);
    var o := s.history[i].owners;
    assert |o - {t}| == |o| - 1;
    assert o - {t} == {};
  }

  // ---- Choosing by priority ----

  /** Position of the first thread of maximal priority. */
  function Best(list: seq<nat>, threads: map<nat, Thread>): (b: nat)
    requires list != [] && forall t | t in list :: t in threads
    ensures b < |list|
  {
    var n := |list| - 1;
    if n == 0 then 0
    else
      var b := Best(list[..n], threads);
      if threads[list[n]].priority > threads[list[b]].priority then n else b
  }

  lemma {:induction false} BestIsFirstMaximum(list: seq<nat>, threads: map<nat, Thread>, j: nat)
    requires list != [] && (forall t | t in list :: t in threads) && j < |list|
    ensures var b := Best(list, threads);
            threads[list[j]].priority <= threads[list[b]].priority
            && (j < b ==> threads[list[j]].priority < threads[list[b]].priority)
  {
    var n := |list| - 1;
    if n > 0 {
      if j < n {
        BestIsFirstMaximum(list[..n], threads, j);
      }
    }
  }

  /** Position k of the list: nobody has a higher priority, and nobody before has the same. */
  ghost predicate FirstHighest(list: seq<nat>, threads: map<nat, Thread>, k: nat) {
    && k < |list| && (forall t | t in list :: t in threads)
    && (forall j | 0 <= j < |list| :: threads[list[j]].priority <= threads[list[k]].priority)
    && (forall j | 0 <= j < k :: threads[list[j]].priority < threads[list[k]].priority)
  }

  lemma BestIsFirstHighest(list: seq<nat>, threads: map<nat, Thread>)
    requires list != [] && forall t | t in list :: t in threads
    ensures FirstHighest(list, threads, Best(list, threads))
  {
    hide Best;
    forall j | 0 <= j < |list|
      ensures threads[list[j]].priority <= threads[list[Best(list, threads)]].priority
      ensures j < Best(list, threads) ==> threads[list[j]].priority < threads[list[Best(list, threads)]].priority
    {
      BestIsFirstMaximum(list, threads, j);
    }
  }

  /** `current` is the first of the highest priority of `list`, and `ready` the rest of it; with
      nobody on the list, idle. */
  ghost predicate RunsNext(list: seq<nat>, threads: map<nat, Thread>, idle: nat, current: nat, ready: seq<nat>) {
    if list == [] then current == idle && ready == []
    else exists k: nat :: k < |list| && FirstHighest(list, threads, k)
                          && current == list[k] && ready == list[..k] + list[k + 1..]
  }

  /** Nothing but the priorities of those on the list matters. */
  lemma SamePriorities(list: seq<nat>, a: map<nat, Thread>, b: map<nat, Thread>, idle: nat, current: nat,
                       ready: seq<nat>)
    requires RunsNext(list, a, idle, current, ready)
    requires forall t | t in list :: t in a && t in b && b[t].priority == a[t].priority
    ensures RunsNext(list, b, idle, current, ready)
  {
    if list != [] {
      var k: nat :| k < |list| && FirstHighest(list, a, k) && current == list[k] && ready == list[..k] + list[k + 1..];
      assert FirstHighest(list, b, k);
    }
  }

  function Without(list: seq<nat>, k: nat): (r: seq<nat>)
    requires k < |list|
  {
    list[..k] + list[k + 1..]
  }

  lemma WithoutOne(list: seq<nat>, k: nat)
    requires k < |list| && NoDup(list)
    ensures NoDup(Without(list, k)) && forall t :: t in Without(list, k) <==> t in list && t != list[k]
  {
    var r := Without(list, k);
    forall t | t in list && t != list[k] ensures t in r {
      var i :| 0 <= i < |list| && list[i] == t;
      assert i < k ==> r[i] == t;
      assert i > k ==> r[i - 1] == t;
    }
  }

  lemma OneMore(list: seq<nat>, t: nat)
    requires NoDup(list) && t !in list
    ensures NoDup(list + [t]) && forall u :: u in list + [t] <==> u in list || u == t
  {}

  // ---- Leaving the processor ----

  ghost predicate SameSemas(s: System, n: System) {
    n.semas == s.semas && n.pending == s.pending && n.history == s.history
  }

  lemma SemasKept(s: System, n: System)
    requires |s.history| == |s.semas| && SemasOk(s) && SameSemas(s, n)
    ensures SemasOk(n)
  {
    forall i: nat | i < |n.semas| ensures SemaOk(n, i) {
      assert SemaOk(s, i) && Woken(n, i) == Woken(s, i);
    }
  }

  function SetStatus(s: System, t: nat, st: Status): System
    requires t in s.threads
  {
    s.(threads := s.threads[t := s.threads[t].(status := st)])
  }

  /** thread_block by a thread that is on no list. */
  lemma BlockedKeeps(s: System)
    requires Inv(s) && s.current !in s.pending
    ensures Switching(SetStatus(s, s.current, Blocked))
  {
    hide NoDup, SemasOk;
    var n := SetStatus(s, s.current, Blocked);
    forall i: nat | i < |n.semas| ensures WaitOk(n, i) { assert WaitOk(s, i); }
    forall t | t in n.pending ensures PendingOk(n, t) { assert PendingOk(s, t); }
    SemasKept(s, n);
  }

  /** timer_sleep: on the sleeping list, with a wake time, and blocked. */
  function Asleep(s: System, wake: int): System
    requires s.current in s.threads
  {
    s.(threads := s.threads[s.current := s.threads[s.current].(status := Blocked, wakeTime := wake)],
       sleeping := s.sleeping + [s.current])
  }

  lemma AsleepKeeps(s: System, wake: int)
    requires Inv(s) && s.current !in s.pending && s.current != s.idle
    ensures Switching(Asleep(s, wake))
  {
    hide NoDup, SemasOk;
    var n := Asleep(s, wake);
    OneMore(s.sleeping, s.current);
    forall i: nat | i < |n.semas| ensures WaitOk(n, i) { assert WaitOk(s, i); }
    forall t | t in n.pending ensures PendingOk(n, t) { assert PendingOk(s, t); }
    SemasKept(s, n);
  }

  /** thread_yield up to schedule. */
  function Yielded(s: System): System
    requires s.current in s.threads
  {
    SetStatus(s, s.current, Ready).(ready := if s.current != s.idle then s.ready + [s.current] else s.ready)
  }

  lemma YieldedKeeps(s: System)
    requires Inv(s)
    ensures Switching(Yielded(s))
  {
    hide NoDup, SemasOk;
    var n := Yielded(s);
    if s.current != s.idle {
      OneMore(s.ready, s.current);
    }
    forall i: nat | i < |n.semas| ensures WaitOk(n, i) { assert WaitOk(s, i); }
    forall t | t in n.pending ensures PendingOk(n, t) { assert PendingOk(s, t); }
    SemasKept(s, n);
  }

  /** thread_exit: the thread is gone once the next one runs. */
  function Exited(s: System): System { s.(threads := s.threads - {s.current}) }

  lemma ExitedKeeps(s: System)
    requires Inv(s) && s.current !in s.pending && s.current != s.idle
    ensures Switching(Exited(s))
  {
    hide NoDup, SemasOk;
    var n := Exited(s);
    forall i: nat | i < |n.semas| ensures WaitOk(n, i) { assert WaitOk(s, i); }
    forall t | t in n.pending ensures PendingOk(n, t) { assert PendingOk(s, t); }
    SemasKept(s, n);
  }

  // ---- Entering the processor ----

  /** The thread schedule picks: the first of maximal priority, or idle. */
  function Next(s: System): nat
    requires forall t | t in s.ready :: t in s.threads
  {
    if s.ready == [] then s.idle else s.ready[Best(s.ready, s.threads)]
  }

  function Dispatched(s: System): System
    requires s.idle in s.threads && forall t | t in s.ready :: t in s.threads
  {
    SetStatus(s, Next(s), Running).(current := Next(s),
      ready := if s.ready == [] then [] else Without(s.ready, Best(s.ready, s.threads)))
  }

  lemma DispatchedRuns(s: System)
    requires s.idle in s.threads && forall t | t in s.ready :: t in s.threads
    ensures var n := Dispatched(s); RunsNext(s.ready, s.threads, s.idle, n.current, n.ready)
  {
    hide Best;
    if s.ready != [] {
      BestIsFirstHighest(s.ready, s.threads);
    }
  }

  lemma DispatchedKeeps(s: System)
    requires Switching(s)
    ensures Inv(Dispatched(s))
  {
    hide NoDup, SemasOk, Best, Without;
    var n := Dispatched(s);
    if s.ready != [] {
      WithoutOne(s.ready, Best(s.ready, s.threads));
    }
    forall i: nat | i < |n.semas| ensures WaitOk(n, i) { assert WaitOk(s, i); }
    forall t | t in n.pending ensures PendingOk(n, t) { assert PendingOk(s, t); }
    SemasKept(s, n);
  }

  // ---- Becoming ready ----

  /** thread_unblock. */
  function Unblocked(s: System, t: nat): System
    requires t in s.threads
  {
    SetStatus(s, t, Ready).(ready := s.ready + [t])
  }

  lemma UnblockedKeeps(s: System, t: nat)
    requires Inv(s) && Known(s, t) && s.threads[t].status == Blocked && t !in s.sleeping && t !in s.pending
    ensures Inv(Unblocked(s, t))
  {
    hide NoDup, SemasOk;
    var n := Unblocked(s, t);
    OneMore(s.ready, t);
    forall i: nat | i < |n.semas| ensures WaitOk(n, i) { assert WaitOk(s, i); }
    forall u | u in n.pending ensures PendingOk(n, u) { assert PendingOk(s, u); }
    SemasKept(s, n);
  }

  /** Sleeper k is taken off the list and unblocked. */
  function Awoken(s: System, k: nat): System
    requires k < |s.sleeping| && s.sleeping[k] in s.threads
  {
    var t := s.sleeping[k];
    s.(sleeping := Without(s.sleeping, k), ready := s.ready + [t],
       threads := s.threads[t := s.threads[t].(status := Ready, wakeTime := -1)])
  }

  lemma AwokenKeeps(s: System, k: nat)
    requires Inv(s) && k < |s.sleeping|
    ensures s.sleeping[k] in s.threads && Inv(Awoken(s, k))
  {
    hide NoDup, SemasOk, Without;
    var t := s.sleeping[k];
    assert t in s.sleeping;
    var n := Awoken(s, k);
    OneMore(s.ready, t);
    WithoutOne(s.sleeping, k);
    forall i: nat | i < |n.semas| ensures WaitOk(n, i) { assert WaitOk(s, i); }
    forall u | u in n.pending ensures PendingOk(n, u) { assert PendingOk(s, u); }
    SemasKept(s, n);
  }

  /** A new thread, blocked on nothing, is unblocked. */
  function Created(s: System, t: nat, priority: int): System {
    s.(threads := s.threads[t := Thread(Ready, priority, -1)], ready := s.ready + [t])
  }

  lemma CreatedKeeps(s: System, t: nat, priority: int)
    requires Inv(s) && t !in s.threads && PRI_MIN <= priority <= PRI_MAX
    ensures Inv(Created(s, t, priority))
  {
    hide NoDup, SemasOk;
    var n := Created(s, t, priority);
    assert t !in s.ready by { assert forall u | u in s.ready :: Known(s, u); }
    OneMore(s.ready, t);
    forall i: nat | i < |n.semas| ensures WaitOk(n, i) { assert WaitOk(s, i); }
    forall u | u in n.pending ensures PendingOk(n, u) { assert PendingOk(s, u); }
    SemasKept(s, n);
  }

  /** Donation, thread_set_priority and the feedback scheduler: a priority changes. */
  function Reprioritised(s: System, t: nat, priority: int): System
    requires t in s.threads
  {
    s.(threads := s.threads[t := s.threads[t].(priority := priority)])
  }

  lemma ReprioritisedKeeps(s: System, t: nat, priority: int)
    requires Inv(s) && t in s.threads && PRI_MIN <= priority <= PRI_MAX
    ensures Inv(Reprioritised(s, t, priority))
  {
    hide NoDup, SemasOk;
    var n := Reprioritised(s, t, priority);
    forall i: nat | i < |n.semas| ensures WaitOk(n, i) { assert WaitOk(s, i); }
    forall u | u in n.pending ensures PendingOk(n, u) { assert PendingOk(s, u); }
    SemasKept(s, n);
  }

  // ---- Semaphores ----

  function SetSema(s: System, i: nat, a: Sema, h: History): System
    requires i < |s.semas| == |s.history|
  {
    s.(semas := s.semas[i := a], history := s.history[i := h])
  }

  /** The waiting branch of sema_down's loop. */
  function Waiting(s: System, i: nat): System
    requires i < |s.semas| && s.current in s.threads
  {
    SetStatus(s, s.current, Blocked).(pending := s.pending[s.current := i],
      semas := s.semas[i := s.semas[i].(waiters := s.semas[i].waiters + [s.current])])
  }

  lemma WaitingSema(s: System, i: nat, j: nat)
    requires Inv(s) && i < |s.semas| && s.current != s.idle && s.semas[i].value == 0
    requires s.current in s.pending ==> s.pending[s.current] == i
    requires j < |s.semas|
    ensures SemaOk(Waiting(s, i), j)
  {
    hide NoDup, ReadyOk, SleepOk, WaitOk, PendingOk;
    var n := Waiting(s, i);
    assert SemaOk(s, j);
    if j != i {
      assert Woken(n, j) == Woken(s, j);
    }
  }

  lemma WaitingKeeps(s: System, i: nat)
    requires Inv(s) && i < |s.semas| && s.current != s.idle && s.semas[i].value == 0
    requires s.current in s.pending ==> s.pending[s.current] == i
    ensures Switching(Waiting(s, i))
  {
    hide NoDup, SemaOk;
    var n := Waiting(s, i);
    assert WaitOk(s, i);
    OneMore(s.semas[i].waiters, s.current);
    forall j: nat | j < |n.semas| ensures WaitOk(n, j) { assert WaitOk(s, j); }
    forall t | t in n.pending ensures PendingOk(n, t) { assert t != s.current ==> PendingOk(s, t); }
    forall j: nat | j < |n.semas| ensures SemaOk(n, j) { WaitingSema(s, i, j); }
  }

  /** The history after a down, or an up, by thread t. */
  function AfterDown(h: History, t: nat): History {
    h.(downs := h.downs + 1, owners := if h.isLock then h.owners + {t} else h.owners)
  }

  function AfterUp(h: History, t: nat): History {
    h.(ups := h.ups + 1, owners := if h.isLock then h.owners - {t} else h.owners)
  }

  /** sema_down past its loop: the value is taken. */
  function Taken(s: System, i: nat): System
    requires i < |s.semas| == |s.history| && s.semas[i].value > 0
  {
    SetSema(s, i, s.semas[i].(value := s.semas[i].value - 1), AfterDown(s.history[i], s.current))
      .(pending := s.pending - {s.current})
  }

  /** sema_try_down when it succeeds; whoever is interrupted stays where it was. */
  function TryTaken(s: System, i: nat): System
    requires i < |s.semas| == |s.history| && s.semas[i].value > 0
  {
    SetSema(s, i, s.semas[i].(value := s.semas[i].value - 1), AfterDown(s.history[i], s.current))
  }

  lemma OneOwner(s: System, i: nat, t: nat)
    requires i < |s.semas| == |s.history| && SemaOk(s, i) && s.semas[i].value > 0 && s.history[i].isLock
    ensures s.history[i].owners == {} && |AfterDown(s.history[i], t).owners| == 1 && s.semas[i].value == 1
  {
    assert s.history[i].owners == {};
    assert AfterDown(s.history[i], t).owners == {t};
  }

  lemma TakenHere(s: System, i: nat)
    requires i < |s.semas| == |s.history| && s.semas[i].value > 0 && SemaOk(s, i)
    ensures SemaOk(Taken(s, i), i)
  {
    var n := Taken(s, i);
    assert Woken(n, i) == Woken(s, i) - {s.current};
    if s.history[i].isLock {
      OneOwner(s, i, s.current);
    }
  }

  lemma TakenElsewhere(s: System, i: nat, j: nat)
    requires i < |s.semas| == |s.history| && s.semas[i].value > 0 && j < |s.semas| && j != i && SemaOk(s, j)
    requires s.current in s.pending ==> s.pending[s.current] == i
    ensures SemaOk(Taken(s, i), j)
  {
    assert Woken(Taken(s, i), j) == Woken(s, j);
  }

  lemma TakenSema(s: System, i: nat, j: nat)
    requires Inv(s) && i < |s.semas| && s.semas[i].value > 0 && j < |s.semas|
    requires s.current in s.pending ==> s.pending[s.current] == i
    ensures SemaOk(Taken(s, i), j)
  {
    hide ReadyOk, SleepOk, WaitOk, PendingOk, SemaOk, Taken;
    if j == i {
      TakenHere(s, i);
    } else {
      TakenElsewhere(s, i, j);
    }
  }

  lemma TakenKeeps(s: System, i: nat)
    requires Inv(s) && i < |s.semas| && s.semas[i].value > 0
    requires s.current in s.pending ==> s.pending[s.current] == i
    ensures Inv(Taken(s, i))
  {
    hide NoDup, SemaOk;
    var n := Taken(s, i);
    forall j: nat | j < |n.semas| ensures WaitOk(n, j) { assert WaitOk(s, j); }
    forall t | t in n.pending ensures PendingOk(n, t) { assert PendingOk(s, t); }
    forall j: nat | j < |n.semas| ensures SemaOk(n, j) { TakenSema(s, i, j); }
  }

  lemma TryTakenKeeps(s: System, i: nat)
    requires Inv(s) && i < |s.semas| && s.semas[i].value > 0
    ensures Inv(TryTaken(s, i))
  {
    hide NoDup;
    var n := TryTaken(s, i);
    forall j: nat | j < |n.semas| ensures WaitOk(n, j) { assert WaitOk(s, j); }
    forall t | t in n.pending ensures PendingOk(n, t) { assert PendingOk(s, t); }
    forall j: nat | j < |n.semas| ensures SemaOk(n, j) {
      assert SemaOk(s, j) && Woken(n, j) == Woken(s, j);
      if j == i && s.history[i].isLock {
        OneOwner(s, i, s.current);
      }
    }
  }

  /** sema_up with nobody waiting. */
  function Raised(s: System, i: nat): System
    requires i < |s.semas| == |s.history|
  {
    SetSema(s, i, s.semas[i].(value := s.semas[i].value + 1), AfterUp(s.history[i], s.current))
  }

  /** sema_up waking the waiter at position b. */
  function RaisedWaking(s: System, i: nat, b: nat): System
    requires i < |s.semas| == |s.history| && b < |s.semas[i].waiters| && s.semas[i].waiters[b] in s.threads
  {
    var a := s.semas[i];
    var raised := a.(value := a.value + 1, waiters := Without(a.waiters, b));
    Unblocked(SetSema(s, i, raised, AfterUp(s.history[i], s.current)), a.waiters[b])
  }

  /** Only the owner of a lock's semaphore, no longer its holder, ups it. */
  predicate MayUp(s: System, i: nat)
    requires i < |s.semas| == |s.history|
  {
    s.history[i].isLock ==> s.current in s.history[i].owners && s.semas[i].holder.None?
  }

  lemma OwnerLeaves(s: System, i: nat)
    requires i < |s.semas| == |s.history| && SemaOk(s, i) && MayUp(s, i) && s.history[i].isLock
    ensures |AfterUp(s.history[i], s.current).owners| == 0 && s.semas[i].value == 0
  {
    var o := s.history[i].owners;
    assert |o - {s.current}| == |o| - 1;
  }

  lemma RaisedKeeps(s: System, i: nat)
    requires Inv(s) && i < |s.semas| && s.semas[i].waiters == [] && MayUp(s, i)
    ensures Inv(Raised(s, i))
  {
    hide NoDup;
    var n := Raised(s, i);
    forall j: nat | j < |n.semas| ensures WaitOk(n, j) { assert WaitOk(s, j); }
    forall t | t in n.pending ensures PendingOk(n, t) { assert PendingOk(s, t); }
    forall j: nat | j < |n.semas| ensures SemaOk(n, j) {
      assert SemaOk(s, j) && Woken(n, j) == Woken(s, j);
      if j == i && s.history[i].isLock {
        OwnerLeaves(s, i);
      }
    }
  }

  lemma RaisedWakingSema(s: System, i: nat, b: nat, j: nat)
    requires Inv(s) && i < |s.semas| && b < |s.semas[i].waiters| && MayUp(s, i) && j < |s.semas|
    requires s.semas[i].waiters[b] in s.threads
    ensures SemaOk(RaisedWaking(s, i, b), j)
  {
    hide ReadyOk, SleepOk, PendingOk, Without, NoDup;
    var n, t := RaisedWaking(s, i, b), s.semas[i].waiters[b];
    assert SemaOk(s, j) && WaitOk(s, i);
    WithoutOne(s.semas[i].waiters, b);
    assert t in s.semas[i].waiters;
    if j != i {
      assert Woken(n, j) == Woken(s, j);
    } else {
      assert Woken(n, i) == Woken(s, i) + {t} && t !in Woken(s, i);
      if s.history[i].isLock {
        OwnerLeaves(s, i);
      }
    }
  }

  lemma RaisedWakingKeeps(s: System, i: nat, b: nat)
    requires Inv(s) && i < |s.semas| && b < |s.semas[i].waiters| && MayUp(s, i)
    ensures s.semas[i].waiters[b] in s.threads && Inv(RaisedWaking(s, i, b))
  {
    hide NoDup, SemaOk, Without;
    assert WaitOk(s, i);
    var t := s.semas[i].waiters[b];
    assert t in s.semas[i].waiters;
    var n := RaisedWaking(s, i, b);
    WithoutOne(s.semas[i].waiters, b);
    OneMore(s.ready, t);
    forall j: nat | j < |n.semas| ensures WaitOk(n, j) { assert WaitOk(s, j); }
    forall u | u in n.pending ensures PendingOk(n, u) { assert PendingOk(s, u); }
    forall j: nat | j < |n.semas| ensures SemaOk(n, j) { RaisedWakingSema(s, i, b, j); }
  }

  /** lock->holder is set after the down and cleared before the up. */
  function SetHolder(s: System, i: nat, holder: Option<nat>): System
    requires i < |s.semas|
  {
    s.(semas := s.semas[i := s.semas[i].(holder := holder)])
  }

  lemma SetHolderKeeps(s: System, i: nat, holder: Option<nat>)
    requires Inv(s) && i < |s.semas| && (holder.Some? ==> s.history[i].isLock && holder.value in s.history[i].owners)
    ensures Inv(SetHolder(s, i, holder))
  {
    hide NoDup;
    var n := SetHolder(s, i, holder);
    forall j: nat | j < |n.semas| ensures WaitOk(n, j) { assert WaitOk(s, j); }
    forall t | t in n.pending ensures PendingOk(n, t) { assert PendingOk(s, t); }
    forall j: nat | j < |n.semas| ensures SemaOk(n, j) {
      assert SemaOk(s, j) && Woken(n, j) == Woken(s, j);
    }
  }
}
