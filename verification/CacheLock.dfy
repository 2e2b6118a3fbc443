/** The reader/writer lock of a cache block (src/filesys/cache.c), as a step system.

    Any number of threads run begin/try/upgrade/downgrade/end on one block, correctly
    paired. A step is one shared-memory action: acquiring or releasing the mutexes `r` and
    `extra`, downing or upping the semaphore `g`, or updating the accessor count `b`. A
    thread that would block simply has no step until the others let it go on. */
module CacheLock {
  import opened Options

  /** Where a thread stands; the comment gives the action it is about to take. */
  datatype Pc =
    | Out                 // holds nothing
    | Reading             // holds the read lock
    | Writing             // holds the write lock
    // cache_read_begin
    | RbLock              // acquire r
    | RbCount             // b += 1, test b == 1
    | RbExtra             // acquire extra
    | RbDown              // down g
    | RbFree              // release extra
    | RbUnlock            // release r
    // cache_read_try
    | RtLock              // try to acquire r
    | RtCount             // b += 1, test b == 1
    | RtDown              // try to down g
    | RtUndo              // b -= 1
    | RtFail              // release r
    | RtUnlock            // release r
    // cache_write_begin
    | WbExtra             // acquire extra
    | WbDown              // down g
    | WbFree              // release extra
    // cache_upgrade
    | UpLock              // acquire r
    | UpCount             // b -= 1, test b == 0
    | UpUnlock            // release r, the write lock is ours
    | UpExtra             // acquire extra
    | UpRelease           // release r
    | UpDown              // down g
    | UpFree              // release extra
    // cache_downgrade
    | DnLock              // acquire r
    | DnCount             // assert b == 0, b += 1
    | DnUnlock            // release r
    // cache_read_end
    | ReLock              // acquire r
    | ReCount             // b -= 1, test b == 0
    | ReUp                // up g
    | ReUnlock            // release r

  type Thread = nat

  /** The lock's shared fields and every thread's place. */
  datatype State = State(r: Option<Thread>, extra: Option<Thread>, g: int, b: int, pc: map<Thread, Pc>)

  ghost predicate Init(s: State) {
    && s.r == None && s.extra == None && s.g == 1 && s.b == 0
    && forall t | t in s.pc :: s.pc[t] == Out
  }

  function At(s: State, t: Thread, p: Pc): State { s.(pc := s.pc[t := p]) }

  /** The actions thread t can take, after which the state is s'. */
  ghost predicate Step(s: State, t: Thread, s': State)
    requires t in s.pc
  {
    || Begin(s, t, s') || ReadBegin(s, t, s') || ReadTry(s, t, s') || WriteBegin(s, t, s')
    || WriteTry(s, t, s') || WriteEnd(s, t, s') || Upgrade(s, t, s') || Downgrade(s, t, s') || ReadEnd(s, t, s')
  }

  /** A thread between operations starts one its place allows. */
  ghost predicate Begin(s: State, t: Thread, s': State)
    requires t in s.pc
  {
    match s.pc[t]
    case Out => s' == At(s, t, RbLock) || s' == At(s, t, RtLock) || s' == At(s, t, WbExtra)
    case Reading => s' == At(s, t, UpLock) || s' == At(s, t, ReLock)
    case Writing => s' == At(s, t, DnLock)
    case _ => false
  }

  /** cache_write_try and cache_write_end are one action each. */
  ghost predicate WriteTry(s: State, t: Thread, s': State)
    requires t in s.pc
  {
    s.pc[t] == Out && s' == if s.g > 0 then At(s, t, Writing).(g := s.g - 1) else s
  }

  ghost predicate WriteEnd(s: State, t: Thread, s': State)
    requires t in s.pc
  {
    s.pc[t] == Writing && s' == At(s, t, Out).(g := s.g + 1)
  }

  ghost predicate ReadBegin(s: State, t: Thread, s': State)
    requires t in s.pc
  {
    match s.pc[t]
    case RbLock => s.r == None && s' == At(s, t, RbCount).(r := Some(t))
    case RbCount => s' == At(s, t, if s.b + 1 == 1 then RbExtra else RbUnlock).(b := s.b + 1)
    case RbExtra => s.extra == None && s' == At(s, t, RbDown).(extra := Some(t))
    case RbDown => s.g > 0 && s' == At(s, t, RbFree).(g := s.g - 1)
    case RbFree => s' == At(s, t, RbUnlock).(extra := None)
    case RbUnlock => s' == At(s, t, Reading).(r := None)
    case _ => false
  }

  ghost predicate ReadTry(s: State, t: Thread, s': State)
    requires t in s.pc
  {
    match s.pc[t]
    case RtLock => s' == if s.r == None then At(s, t, RtCount).(r := Some(t)) else At(s, t, Out)
    case RtCount => s' == At(s, t, if s.b + 1 == 1 then RtDown else RtUnlock).(b := s.b + 1)
    case RtDown => s' == if s.g > 0 then At(s, t, RtUnlock).(g := s.g - 1) else At(s, t, RtUndo)
    case RtUndo => s' == At(s, t, RtFail).(b := s.b - 1)
    case RtFail => s' == At(s, t, Out).(r := None)
    case RtUnlock => s' == At(s, t, Reading).(r := None)
    case _ => false
  }

  ghost predicate WriteBegin(s: State, t: Thread, s': State)
    requires t in s.pc
  {
    match s.pc[t]
    case WbExtra => s.extra == None && s' == At(s, t, WbDown).(extra := Some(t))
    case WbDown => s.g > 0 && s' == At(s, t, WbFree).(g := s.g - 1)
    case WbFree => s' == At(s, t, Writing).(extra := None)
    case _ => false
  }

  ghost predicate Upgrade(s: State, t: Thread, s': State)
    requires t in s.pc
  {
    match s.pc[t]
    case UpLock => s.r == None && s' == At(s, t, UpCount).(r := Some(t))
    case UpCount => s' == At(s, t, if s.b - 1 == 0 then UpUnlock else UpExtra).(b := s.b - 1)
    case UpUnlock => s' == At(s, t, Writing).(r := None)
    case UpExtra => s.extra == None && s' == At(s, t, UpRelease).(extra := Some(t))
    case UpRelease => s' == At(s, t, UpDown).(r := None)
    case UpDown => s.g > 0 && s' == At(s, t, UpFree).(g := s.g - 1)
    case UpFree => s' == At(s, t, Writing).(extra := None)
    case _ => false
  }

  ghost predicate Downgrade(s: State, t: Thread, s': State)
    requires t in s.pc
  {
    match s.pc[t]
    case DnLock => s.r == None && s' == At(s, t, DnCount).(r := Some(t))
    case DnCount => s' == At(s, t, DnUnlock).(b := s.b + 1)
    case DnUnlock => s' == At(s, t, Reading).(r := None)
    case _ => false
  }

  ghost predicate ReadEnd(s: State, t: Thread, s': State)
    requires t in s.pc
  {
    match s.pc[t]
    case ReLock => s.r == None && s' == At(s, t, ReCount).(r := Some(t))
    case ReCount => s' == At(s, t, if s.b - 1 == 0 then ReUp else ReUnlock).(b := s.b - 1)
    case ReUp => s' == At(s, t, ReUnlock).(g := s.g + 1)
    case ReUnlock => s' == At(s, t, Out).(r := None)
    case _ => false
  }

  // ---- Who holds what ----

  predicate HoldsR(p: Pc) {
    p.RbCount? || p.RbExtra? || p.RbDown? || p.RbFree? || p.RbUnlock? ||
    p.RtCount? || p.RtDown? || p.RtUndo? || p.RtFail? || p.RtUnlock? ||
    p.UpCount? || p.UpUnlock? || p.UpExtra? || p.UpRelease? || p.DnCount? || p.DnUnlock? || p.ReCount? || p.ReUp?
    || p.ReUnlock?
  }

  predicate HoldsExtra(p: Pc) {
    p.RbDown? || p.RbFree? || p.WbDown? || p.WbFree? || p.UpRelease? || p.UpDown? || p.UpFree?
  }

  /** Counted in b and sharing the semaphore with the other readers. */
  predicate Shares(p: Pc) {
    p.RbFree? || p.RbUnlock? || p.RtUnlock? || p.Reading? || p.UpLock? || p.UpCount? || p.DnUnlock? || p.ReLock?
    || p.ReCount?
  }

  /** Counted in b but not yet admitted. */
  predicate Pending(p: Pc) { p.RbExtra? || p.RbDown? || p.RtDown? || p.RtUndo? }

  /** Holds the semaphore alone. */
  predicate Owns(p: Pc) { p.WbFree? || p.Writing? || p.UpUnlock? || p.UpFree? || p.DnLock? || p.DnCount? || p.ReUp? }

  /** May the thread touch the block's data as a reader, as a writer? */
  predicate IsReader(p: Pc) { p.Reading? || p.UpLock? || p.UpCount? || p.ReLock? || p.ReCount? || p.DnUnlock? }
  predicate IsWriter(p: Pc) { p.Writing? || p.UpUnlock? || p.DnLock? || p.DnCount? }

  ghost function Sharers(s: State): set<Thread> { set t | t in s.pc && Shares(s.pc[t]) }
  ghost function Waiters(s: State): set<Thread> { set t | t in s.pc && Pending(s.pc[t]) }
  ghost function Owners(s: State): set<Thread> { set t | t in s.pc && Owns(s.pc[t]) }

  /** The mutexes have exactly the holders they claim. */
  ghost predicate MutexInv(s: State) {
    && (forall t | t in s.pc :: HoldsR(s.pc[t]) <==> s.r == Some(t))
    && (forall t | t in s.pc :: HoldsExtra(s.pc[t]) <==> s.extra == Some(t))
    && (s.r.Some? ==> s.r.value in s.pc) && (s.extra.Some? ==> s.extra.value in s.pc)
  }

  /** b counts the sharers and the pending reader, and the semaphore's one unit is either
      free, with a single owner, or with the group of sharers. */
  ghost predicate CountInv(s: State) {
    var sharers, waiters, owners := |Sharers(s)|, |Waiters(s)|, |Owners(s)|;
    && s.b == sharers + waiters
    && (waiters > 0 ==> sharers == 0)
    && s.g >= 0
    && s.g + owners + (if sharers > 0 then 1 else 0) == 1
  }

  ghost predicate Inv(s: State) { MutexInv(s) && CountInv(s) }

  /** What the lock is for. */
  ghost predicate Safe(s: State) {
    && s.g <= 1 && s.b >= 0
    && (forall t, u | t in s.pc && u in s.pc && IsWriter(s.pc[t]) && u != t :: !IsWriter(s.pc[u]) && !IsReader(s.pc[u]))
    && (forall t | t in s.pc && s.pc[t] == DnCount :: s.b == 0)          // the assertion in cache_downgrade
  }

  // ---- Proof ----

  lemma InitInv(s: State)
    requires Init(s)
    ensures Inv(s)
  {
    assert Sharers(s) == {} && Waiters(s) == {} && Owners(s) == {};
  }

  function Bit(c: bool): int { if c then 1 else 0 }

  /** How the three groups change when only thread t moves. */
  lemma GroupsAfterMove(s: State, t: Thread, s': State)
    requires t in s.pc && t in s'.pc && s'.pc == s.pc[t := s'.pc[t]]
    ensures |Sharers(s')| == |Sharers(s)| - Bit(Shares(s.pc[t])) + Bit(Shares(s'.pc[t]))
    ensures |Waiters(s')| == |Waiters(s)| - Bit(Pending(s.pc[t])) + Bit(Pending(s'.pc[t]))
    ensures |Owners(s')| == |Owners(s)| - Bit(Owns(s.pc[t])) + Bit(Owns(s'.pc[t]))
  {
    CountMoved(Sharers(s), Sharers(s'), t);
    CountMoved(Waiters(s), Waiters(s'), t);
    CountMoved(Owners(s), Owners(s'), t);
  }

  lemma CountMoved(x: set<Thread>, y: set<Thread>, t: Thread)
    requires x - {t} == y - {t}
    ensures |y| == |x| - Bit(t in x) + Bit(t in y)
  {
    assert x == if t in x then (x - {t}) + {t} else x - {t};
    assert y == if t in y then (y - {t}) + {t} else y - {t};
  }

  /** Membership puts a thread's own unit into the counts; only r's holder can be pending. */
  lemma OwnUnit(s: State, t: Thread)
    requires MutexInv(s) && t in s.pc
    ensures |Sharers(s)| >= Bit(Shares(s.pc[t]))
    ensures |Owners(s)| >= Bit(Owns(s.pc[t]))
    ensures |Waiters(s)| >= Bit(Pending(s.pc[t]))
    ensures HoldsR(s.pc[t]) <==> s.r == Some(t)
    ensures HoldsExtra(s.pc[t]) <==> s.extra == Some(t)
    ensures HoldsR(s.pc[t]) ==> |Waiters(s)| == Bit(Pending(s.pc[t]))
  {
    if Shares(s.pc[t]) { SubsetCount({t}, Sharers(s)); }
    if Owns(s.pc[t]) { SubsetCount({t}, Owners(s)); }
    if Pending(s.pc[t]) { SubsetCount({t}, Waiters(s)); }
    if HoldsR(s.pc[t]) {
      assert Waiters(s) == if Pending(s.pc[t]) then {t} else {};
    }
  }

  lemma SubsetCount(x: set<Thread>, y: set<Thread>)
    requires x <= y
    ensures |x| <= |y|
  {
    assert y == x + (y - x);
  }

  /** A mutex changes hands only through the moving thread. */
  lemma MutexesAfterMove(s: State, t: Thread, s': State)
    requires MutexInv(s) && t in s.pc && t in s'.pc && s'.pc == s.pc[t := s'.pc[t]]
    requires HoldsR(s'.pc[t]) <==> s'.r == Some(t)
    requires HoldsExtra(s'.pc[t]) <==> s'.extra == Some(t)
    requires s'.r == s.r || ((s.r == None || s.r == Some(t)) && (s'.r == None || s'.r == Some(t)))
    requires s'.extra == s.extra
             || ((s.extra == None || s.extra == Some(t)) && (s'.extra == None || s'.extra == Some(t)))
    ensures MutexInv(s')
  {}

  /** A move between places that hold the same things. */
  lemma QuietMove(s: State, t: Thread, q: Pc)
    requires Inv(s) && t in s.pc && Shares(q) == Shares(s.pc[t]) && Pending(q) == Pending(s.pc[t])
    requires Owns(q) == Owns(s.pc[t])
    requires HoldsR(q) == HoldsR(s.pc[t]) && HoldsExtra(q) == HoldsExtra(s.pc[t])
    ensures Inv(At(s, t, q))
  {
    hide Sharers, Waiters, Owners, MutexInv, Shares, Pending, Owns, HoldsR, HoldsExtra;
    OwnUnit(s, t);
    GroupsAfterMove(s, t, At(s, t, q));
    MutexesAfterMove(s, t, At(s, t, q));
  }

  lemma BeginKeepsInv(s: State, t: Thread, s': State)
    requires Inv(s) && t in s.pc && Begin(s, t, s')
    ensures Inv(s')
  {
    hide Inv;
    QuietMove(s, t, s'.pc[t]);
  }

  lemma ReadBeginKeepsInv(s: State, t: Thread, s': State)
    requires Inv(s) && t in s.pc && ReadBegin(s, t, s')
    ensures Inv(s')
  {
    hide Sharers, Waiters, Owners, MutexInv;
    OwnUnit(s, t);
    GroupsAfterMove(s, t, s');
    MutexesAfterMove(s, t, s');
  }

  lemma ReadTryKeepsInv(s: State, t: Thread, s': State)
    requires Inv(s) && t in s.pc && ReadTry(s, t, s')
    ensures Inv(s')
  {
    hide Sharers, Waiters, Owners, MutexInv;
    OwnUnit(s, t);
    GroupsAfterMove(s, t, s');
    MutexesAfterMove(s, t, s');
  }

  lemma WriteBeginKeepsInv(s: State, t: Thread, s': State)
    requires Inv(s) && t in s.pc && WriteBegin(s, t, s')
    ensures Inv(s')
  {
    hide Sharers, Waiters, Owners, MutexInv;
    OwnUnit(s, t);
    GroupsAfterMove(s, t, s');
    MutexesAfterMove(s, t, s');
  }

  lemma WriteTryKeepsInv(s: State, t: Thread, s': State)
    requires Inv(s) && t in s.pc && WriteTry(s, t, s')
    ensures Inv(s')
  {
    hide Sharers, Waiters, Owners, MutexInv;
    OwnUnit(s, t);
    GroupsAfterMove(s, t, s');
    MutexesAfterMove(s, t, s');
  }

  lemma WriteEndKeepsInv(s: State, t: Thread, s': State)
    requires Inv(s) && t in s.pc && WriteEnd(s, t, s')
    ensures Inv(s')
  {
    hide Sharers, Waiters, Owners, MutexInv;
    OwnUnit(s, t);
    GroupsAfterMove(s, t, s');
    MutexesAfterMove(s, t, s');
  }

  lemma UpgradeKeepsInv(s: State, t: Thread, s': State)
    requires Inv(s) && t in s.pc && Upgrade(s, t, s')
    ensures Inv(s')
  {
    hide Sharers, Waiters, Owners, MutexInv;
    OwnUnit(s, t);
    GroupsAfterMove(s, t, s');
    MutexesAfterMove(s, t, s');
  }

  lemma DowngradeKeepsInv(s: State, t: Thread, s': State)
    requires Inv(s) && t in s.pc && Downgrade(s, t, s')
    ensures Inv(s')
  {
    hide Sharers, Waiters, Owners, MutexInv;
    OwnUnit(s, t);
    GroupsAfterMove(s, t, s');
    MutexesAfterMove(s, t, s');
  }

  lemma ReadEndKeepsInv(s: State, t: Thread, s': State)
    requires Inv(s) && t in s.pc && ReadEnd(s, t, s')
    ensures Inv(s')
  {
    hide Sharers, Waiters, Owners, MutexInv;
    OwnUnit(s, t);
    GroupsAfterMove(s, t, s');
    MutexesAfterMove(s, t, s');
  }

  lemma StepKeepsInv(s: State, t: Thread, s': State)
    requires Inv(s) && t in s.pc && Step(s, t, s')
    ensures Inv(s')
  {
    hide Inv, Begin, WriteTry, WriteEnd, ReadBegin, ReadTry, WriteBegin, Upgrade, Downgrade, ReadEnd;
    if Begin(s, t, s') {
      BeginKeepsInv(s, t, s');
    } else if ReadBegin(s, t, s') {
      ReadBeginKeepsInv(s, t, s');
    } else if ReadTry(s, t, s') {
      ReadTryKeepsInv(s, t, s');
    } else if WriteBegin(s, t, s') {
      WriteBeginKeepsInv(s, t, s');
    } else if WriteTry(s, t, s') {
      WriteTryKeepsInv(s, t, s');
    } else if WriteEnd(s, t, s') {
      WriteEndKeepsInv(s, t, s');
    } else if Upgrade(s, t, s') {
      UpgradeKeepsInv(s, t, s');
    } else if Downgrade(s, t, s') {
      DowngradeKeepsInv(s, t, s');
    } else if ReadEnd(s, t, s') {
      ReadEndKeepsInv(s, t, s');
    }
  }

  lemma InvIsSafe(s: State)
    requires Inv(s)
    ensures Safe(s)
  {
    forall t, u | t in s.pc && u in s.pc && IsWriter(s.pc[t]) && u != t
      ensures !IsWriter(s.pc[u]) && !IsReader(s.pc[u])
    {
      OwnUnit(s, t);
      OwnUnit(s, u);
      if IsWriter(s.pc[u]) {
        SubsetCount({t, u}, Owners(s));
      }
    }
    forall t | t in s.pc && s.pc[t] == DnCount ensures s.b == 0 {
      OwnUnit(s, t);
    }
  }

  // ---- Runs ----

  ghost predicate Next(s: State, s': State) {
    exists t :: t in s.pc && Step(s, t, s')
  }

  /** A run: every consecutive pair of states is a step of some thread. */
  ghost predicate IsRun(run: seq<State>) {
    && |run| > 0 && Init(run[0])
    && forall i | 0 <= i < |run| - 1 :: Next(run[i], run[i + 1])
  }

  /** In every interleaving of any number of threads: no writer together with a reader or
      a second writer, g <= 1, b >= 0, and the assertion in cache_downgrade holds. */
  lemma {:induction false} EveryRunIsSafe(run: seq<State>)
    requires IsRun(run)
    ensures forall i | 0 <= i < |run| :: Safe(run[i])
  {
    forall i | 0 <= i < |run| ensures Safe(run[i]) {
      RunKeepsInv(run, i);
      InvIsSafe(run[i]);
    }
  }

  lemma {:induction false} RunKeepsInv(run: seq<State>, i: nat)
    requires IsRun(run) && i < |run|
    ensures Inv(run[i])
  {
    hide Inv, Step, Init;
    if i == 0 {
      InitInv(run[0]);
    } else {
      RunKeepsInv(run, i - 1);
      assert Next(run[i - 1], run[i]);
      var t :| t in run[i - 1].pc && Step(run[i - 1], t, run[i]);
      StepKeepsInv(run[i - 1], t, run[i]);
    }
  }

  // ---- Where an operation ends ----

  /** Between operations. */
  predicate AtRest(p: Pc) { p.Out? || p.Reading? || p.Writing? }

  predicate Trying(p: Pc) { p.RtLock? || p.RtCount? || p.RtDown? || p.RtUndo? || p.RtFail? || p.RtUnlock? }

  /** The place an operation that does not only try is on its way to. */
  function Goal(p: Pc): Pc {
    if p.RbLock? || p.RbCount? || p.RbExtra? || p.RbDown? || p.RbFree? || p.RbUnlock? then Reading
    else if p.DnLock? || p.DnCount? || p.DnUnlock? then Reading
    else if p.ReLock? || p.ReCount? || p.ReUp? || p.ReUnlock? then Out
    else if AtRest(p) then p
    else Writing
  }

  lemma OwnGoal(s: State, t: Thread, s': State)
    requires t in s.pc && t in s'.pc && Step(s, t, s') && !AtRest(s.pc[t]) && !Trying(s.pc[t])
    ensures !Trying(s'.pc[t]) && Goal(s'.pc[t]) == Goal(s.pc[t])
  {
    hide Begin, WriteTry, WriteEnd, ReadTry, Goal, Trying, AtRest, ReadBegin, WriteBegin, Upgrade, Downgrade, ReadEnd;
    NotThere(s, t, s');
    if Upgrade(s, t, s') {
      UpgradeGoal(s, t, s');
    } else if ReadBegin(s, t, s') {
      ReadBeginGoal(s, t, s');
    } else {
      OtherGoal(s, t, s');
    }
  }

  lemma UpgradeGoal(s: State, t: Thread, s': State)
    requires t in s.pc && t in s'.pc && Upgrade(s, t, s')
    ensures !Trying(s'.pc[t]) && Goal(s'.pc[t]) == Goal(s.pc[t])
  {}

  lemma ReadBeginGoal(s: State, t: Thread, s': State)
    requires t in s.pc && t in s'.pc && ReadBegin(s, t, s')
    ensures !Trying(s'.pc[t]) && Goal(s'.pc[t]) == Goal(s.pc[t])
  {}

  lemma OtherGoal(s: State, t: Thread, s': State)
    requires t in s.pc && t in s'.pc && (WriteBegin(s, t, s') || Downgrade(s, t, s') || ReadEnd(s, t, s'))
    ensures !Trying(s'.pc[t]) && Goal(s'.pc[t]) == Goal(s.pc[t])
  {}

  lemma NotThere(s: State, t: Thread, s': State)
    requires t in s.pc && !AtRest(s.pc[t]) && !Trying(s.pc[t])
    ensures !Begin(s, t, s') && !WriteTry(s, t, s') && !WriteEnd(s, t, s') && !ReadTry(s, t, s')
  {
    hide At;
  }

  lemma StepGoal(s: State, t: Thread, s': State, u: Thread)
    requires t in s.pc && u in s.pc && Step(s, u, s')
    ensures t in s'.pc && (u != t ==> s'.pc[t] == s.pc[t])
    ensures u == t && !AtRest(s.pc[t]) && !Trying(s.pc[t]) ==> !Trying(s'.pc[t]) && Goal(s'.pc[t]) == Goal(s.pc[t])
  {
    hide Step, AtRest, Trying, Goal;
    StepMovesOne(s, u, s');
    if u == t && !AtRest(s.pc[t]) && !Trying(s.pc[t]) {
      OwnGoal(s, t, s');
    }
  }

  /** From point i to point j of the run thread t is inside one operation. */
  ghost predicate Operating(run: seq<State>, t: Thread, i: nat, j: nat) {
    && i <= j < |run| && forall k | i <= k < j :: t in run[k].pc && !AtRest(run[k].pc[t])
  }

  lemma {:induction false} GoalStays(run: seq<State>, t: Thread, i: nat, j: nat)
    requires IsRun(run) && Operating(run, t, i, j) && t in run[i].pc && !AtRest(run[i].pc[t]) && !Trying(run[i].pc[t])
    ensures t in run[j].pc && !Trying(run[j].pc[t]) && Goal(run[j].pc[t]) == Goal(run[i].pc[t])
    decreases j
  {
    hide Step, Init, AtRest, Trying, Goal;
    if i < j {
      GoalStays(run, t, i, j - 1);
      assert Next(run[j - 1], run[j]);
      var u :| u in run[j - 1].pc && Step(run[j - 1], u, run[j]);
      StepGoal(run[j - 1], t, run[j], u);
    }
  }

  /** In every run an operation that returns has done what it is for: the first place of rest after
      the start of cache_upgrade or cache_write_begin is that of the writer, after that of
      cache_read_begin or cache_downgrade that of a reader, and cache_read_end lets go. */
  lemma OperationEnds(run: seq<State>, t: Thread, i: nat, j: nat)
    requires IsRun(run) && Operating(run, t, i, j) && t in run[i].pc && t in run[j].pc && AtRest(run[j].pc[t])
    ensures run[i].pc[t] == UpLock || run[i].pc[t] == WbExtra ==> run[j].pc[t] == Writing
    ensures run[i].pc[t] == RbLock || run[i].pc[t] == DnLock ==> run[j].pc[t] == Reading
    ensures run[i].pc[t] == ReLock ==> run[j].pc[t] == Out
  {
    hide IsRun;
    if !AtRest(run[i].pc[t]) && !Trying(run[i].pc[t]) {
      GoalStays(run, t, i, j);
    }
  }

  /** A thread between operations can start each one its lock allows: with none it can begin or try to
      read or write, as a reader upgrade or end, as the writer downgrade or end. */
  lemma EveryStart(s: State, t: Thread)
    requires t in s.pc
    ensures s.pc[t] == Out ==>
              && Step(s, t, s.(pc := s.pc[t := RbLock])) && Step(s, t, s.(pc := s.pc[t := RtLock]))
              && Step(s, t, s.(pc := s.pc[t := WbExtra]))
              && (s.g > 0 ==> Step(s, t, s.(pc := s.pc[t := Writing], g := s.g - 1)))
    ensures s.pc[t] == Reading ==>
              Step(s, t, s.(pc := s.pc[t := UpLock])) && Step(s, t, s.(pc := s.pc[t := ReLock]))
    ensures s.pc[t] == Writing ==>
              Step(s, t, s.(pc := s.pc[t := DnLock])) && Step(s, t, s.(pc := s.pc[t := Out], g := s.g + 1))
  {}

  /** cache_write_try is one step, and has the write lock exactly when the semaphore's unit was free. */
  lemma WriteTryEnds(s: State, t: Thread, s': State)
    requires t in s.pc && WriteTry(s, t, s')
    ensures t in s'.pc && s'.pc[t] == if s.g > 0 then Writing else Out
    ensures s'.g == if s.g > 0 then s.g - 1 else s.g
    ensures s'.r == s.r && s'.extra == s.extra && s'.b == s.b && s'.pc == s.pc[t := s'.pc[t]]
  {
    assert s'.pc == s.pc[t := s'.pc[t]];
  }

  /** cache_write_end is one step too: the unit is free again and the thread holds nothing. */
  lemma WriteEndEnds(s: State, t: Thread, s': State)
    requires Inv(s) && t in s.pc && WriteEnd(s, t, s')
    ensures t in s'.pc && s'.pc[t] == Out && s.g == 0 && s'.g == 1
    ensures s'.r == s.r && s'.extra == s.extra && s'.b == s.b && s'.pc == s.pc[t := Out]
  {
    hide Sharers, Waiters;
    OwnUnit(s, t);
  }

  /** At point k sema_try_down of thread t finds the semaphore's unit free. */
  ghost predicate GotUnit(run: seq<State>, t: Thread, k: nat) {
    && k + 1 < |run| && t in run[k].pc && t in run[k + 1].pc
    && run[k].pc[t] == RtDown && run[k].g > 0 && run[k + 1].pc[t] != RtDown
  }

  ghost predicate GotUnitIn(run: seq<State>, t: Thread, lo: nat, hi: nat) {
    exists k: nat :: lo <= k < hi && GotUnit(run, t, k)
  }

  /** Point m of a cache_read_try that has had r since point lo, when b was b0. */
  ghost predicate TryingOn(run: seq<State>, t: Thread, lo: nat, m: nat, b0: int) {
    && lo <= m < |run| && t in run[m].pc
    && match run[m].pc[t]
       case RtCount => run[m].b == b0 && !GotUnitIn(run, t, lo, m)
       case RtDown => b0 == 0 && !GotUnitIn(run, t, lo, m)
       case RtUndo => b0 == 0 && !GotUnitIn(run, t, lo, m)
       case RtFail => b0 == 0 && !GotUnitIn(run, t, lo, m)
       case RtUnlock => b0 > 0 || GotUnitIn(run, t, lo, m)
       case _ => false
  }

  /** Only who has r changes b. */
  lemma OthersLeaveB(s: State, t: Thread, s': State, u: Thread)
    requires Inv(s) && t in s.pc && u in s.pc && u != t && HoldsR(s.pc[t]) && Step(s, u, s')
    ensures s'.b == s.b
  {
    hide CountInv;
  }

  lemma OneMorePoint(run: seq<State>, t: Thread, lo: nat, m: nat)
    requires lo <= m
    ensures GotUnitIn(run, t, lo, m + 1) <==> GotUnitIn(run, t, lo, m) || GotUnit(run, t, m)
  {
    hide GotUnit;
    if GotUnitIn(run, t, lo, m) {
      var k: nat :| lo <= k < m && GotUnit(run, t, k);
      assert lo <= k < m + 1;
    }
  }

  /** What t's own step does there. */
  lemma TriedOn(run: seq<State>, t: Thread, lo: nat, m: nat, b0: int)
    requires TryingOn(run, t, lo, m, b0) && m + 1 < |run| && b0 >= 0 && Step(run[m], t, run[m + 1])
    ensures var n := run[m + 1];
            && t in n.pc && (TryingOn(run, t, lo, m + 1, b0) || n.pc[t] == Reading || n.pc[t] == Out)
            && (n.pc[t] == Reading ==> b0 > 0 || GotUnitIn(run, t, lo, m + 1))
            && (n.pc[t] == Out ==> b0 == 0 && !GotUnitIn(run, t, lo, m + 1))
  {
    hide GotUnitIn;
    OneMorePoint(run, t, lo, m);
  }

  lemma {:induction false} TryGoesOn(run: seq<State>, t: Thread, lo: nat, j: nat)
    requires IsRun(run) && lo < j && Operating(run, t, lo, j) && t in run[lo].pc && run[lo].pc[t] == RtCount
    ensures t in run[j].pc && run[lo].b >= 0
    ensures TryingOn(run, t, lo, j, run[lo].b) || run[j].pc[t] == Reading || run[j].pc[t] == Out
    ensures run[j].pc[t] == Reading ==> run[lo].b > 0 || GotUnitIn(run, t, lo, j)
    ensures run[j].pc[t] == Out ==> run[lo].b == 0 && !GotUnitIn(run, t, lo, j)
    decreases j
  {
    hide Step, Init, Inv, GotUnitIn;
    RunKeepsInv(run, lo);
    InvIsSafe(run[lo]);
    var m, b0 := j - 1, run[lo].b;
    if lo < m {
      TryGoesOn(run, t, lo, m);
    } else {
      NothingYet(run, t, lo);
    }
    assert TryingOn(run, t, lo, m, b0);
    assert Next(run[m], run[j]);
    var u :| u in run[m].pc && Step(run[m], u, run[j]);
    if u == t {
      TriedOn(run, t, lo, m, b0);
    } else {
      RunKeepsInv(run, m);
      StepGoal(run[m], t, run[j], u);
      OthersLeaveB(run[m], t, run[j], u);
      OneMorePoint(run, t, lo, m);
    }
  }

  lemma NothingYet(run: seq<State>, t: Thread, lo: nat)
    ensures !GotUnitIn(run, t, lo, lo)
  {}

  /** cache_read_try ends with the read lock if and only if the mutex r was free when it tried it and
      either other readers were counted in b then or its own try of the semaphore found the unit. */
  lemma ReadTryEnds(run: seq<State>, t: Thread, i: nat, j: nat)
    requires IsRun(run) && i < j && Operating(run, t, i, j) && t in run[i].pc && run[i].pc[t] == RtLock
    requires t in run[i + 1].pc && run[i + 1].pc[t] != RtLock && t in run[j].pc && AtRest(run[j].pc[t])
    ensures run[j].pc[t] == Reading || run[j].pc[t] == Out
    ensures run[j].pc[t] == Reading <==>
              run[i].r == None && (run[i].b > 0 || exists k: nat :: i < k < j && GotUnit(run, t, k))
  {
    hide Init, GotUnit;
    assert Next(run[i], run[i + 1]);
    var u :| u in run[i].pc && Step(run[i], u, run[i + 1]);
    StepGoal(run[i], t, run[i + 1], u);
    if run[i].r == None {
      assert run[i + 1].pc[t] == RtCount && run[i + 1].b == run[i].b;
      TryGoesOn(run, t, i + 1, j);
    } else {
      assert run[i + 1].pc[t] == Out && j == i + 1;
    }
  }

  // ---- When the lock can come to a standstill ----

  /** Stuck: no thread can move. */
  ghost predicate Stuck(s: State) {
    forall t, s' | t in s.pc :: !Step(s, t, s')
  }

  /** The places at which a thread may have to wait for r, for extra or for g. */
  predicate WaitsR(p: Pc) { p.RbLock? || p.UpLock? || p.DnLock? || p.ReLock? }
  predicate WaitsExtra(p: Pc) { p.RbExtra? || p.WbExtra? || p.UpExtra? }
  predicate WaitsG(p: Pc) { p.RbDown? || p.WbDown? || p.UpDown? }
  predicate Waits(p: Pc) { WaitsR(p) || WaitsExtra(p) || WaitsG(p) }

  predicate Blocked(s: State, t: Thread)
    requires t in s.pc
  {
    var p := s.pc[t];
    (WaitsR(p) && s.r.Some?) || (WaitsExtra(p) && s.extra.Some?) || (WaitsG(p) && s.g <= 0)
  }

  /** A step of a thread that is not blocked. */
  function Move(s: State, t: Thread): State
    requires t in s.pc
  {
    match s.pc[t]
    case Out => At(s, t, RbLock)
    case Reading => At(s, t, ReLock)
    case Writing => At(s, t, DnLock)
    case RbLock => At(s, t, RbCount).(r := Some(t))
    case RbCount => At(s, t, if s.b + 1 == 1 then RbExtra else RbUnlock).(b := s.b + 1)
    case RbExtra => At(s, t, RbDown).(extra := Some(t))
    case RbDown => At(s, t, RbFree).(g := s.g - 1)
    case RbFree => At(s, t, RbUnlock).(extra := None)
    case RbUnlock => At(s, t, Reading).(r := None)
    case RtLock => if s.r == None then At(s, t, RtCount).(r := Some(t)) else At(s, t, Out)
    case RtCount => At(s, t, if s.b + 1 == 1 then RtDown else RtUnlock).(b := s.b + 1)
    case RtDown => if s.g > 0 then At(s, t, RtUnlock).(g := s.g - 1) else At(s, t, RtUndo)
    case RtUndo => At(s, t, RtFail).(b := s.b - 1)
    case RtFail => At(s, t, Out).(r := None)
    case RtUnlock => At(s, t, Reading).(r := None)
    case WbExtra => At(s, t, WbDown).(extra := Some(t))
    case WbDown => At(s, t, WbFree).(g := s.g - 1)
    case WbFree => At(s, t, Writing).(extra := None)
    case UpLock => At(s, t, UpCount).(r := Some(t))
    case UpCount => At(s, t, if s.b - 1 == 0 then UpUnlock else UpExtra).(b := s.b - 1)
    case UpUnlock => At(s, t, Writing).(r := None)
    case UpExtra => At(s, t, UpRelease).(extra := Some(t))
    case UpRelease => At(s, t, UpDown).(r := None)
    case UpDown => At(s, t, UpFree).(g := s.g - 1)
    case UpFree => At(s, t, Writing).(extra := None)
    case DnLock => At(s, t, DnCount).(r := Some(t))
    case DnCount => At(s, t, DnUnlock).(b := s.b + 1)
    case DnUnlock => At(s, t, Reading).(r := None)
    case ReLock => At(s, t, ReCount).(r := Some(t))
    case ReCount => At(s, t, if s.b - 1 == 0 then ReUp else ReUnlock).(b := s.b - 1)
    case ReUp => At(s, t, ReUnlock).(g := s.g + 1)
    case ReUnlock => At(s, t, Out).(r := None)
  }

  lemma FreeToMove(s: State, t: Thread)
    requires t in s.pc && !Blocked(s, t)
    ensures Step(s, t, Move(s, t))
  {
    hide At;
  }

  lemma BlockedCannot(s: State, t: Thread, s': State)
    requires t in s.pc && Blocked(s, t)
    ensures !Step(s, t, s')
  {
    hide At;
  }

  lemma StuckIsAllBlocked(s: State)
    ensures Stuck(s) <==> forall t | t in s.pc :: Blocked(s, t)
  {
    hide Step, Move, Blocked;
    forall t, s' | t in s.pc && Blocked(s, t) ensures !Step(s, t, s') {
      BlockedCannot(s, t, s');
    }
    forall t | t in s.pc && !Blocked(s, t) ensures Step(s, t, Move(s, t)) {
      FreeToMove(s, t);
    }
  }

  /** A standstill read off the threads' places: everyone is where it may have to wait, and
      someone has r, someone has extra, and someone has the unit of g. */
  ghost predicate Standstill(s: State) {
    && (forall t | t in s.pc :: Waits(s.pc[t]))
    && (exists t | t in s.pc :: HoldsR(s.pc[t]))
    && (exists t | t in s.pc :: HoldsExtra(s.pc[t]))
    && (exists t | t in s.pc :: Shares(s.pc[t]) || Owns(s.pc[t]))
  }

  /** g's unit is taken exactly when some thread owns or shares it. */
  lemma UnitTaken(s: State)
    requires Inv(s)
    ensures s.g <= 0 <==> exists t | t in s.pc :: Shares(s.pc[t]) || Owns(s.pc[t])
  {
    if s.g <= 0 {
      if |Owners(s)| > 0 {
        assert Owners(s) != {};
        var t :| t in Owners(s);
      } else {
        assert Sharers(s) != {};
        var t :| t in Sharers(s);
      }
    } else {
      assert Owners(s) == {} && Sharers(s) == {};
      forall t | t in s.pc ensures !(Shares(s.pc[t]) || Owns(s.pc[t])) {
        assert t !in Owners(s) && t !in Sharers(s);
      }
    }
  }

  /** The exact condition: in a state the lock can reach, with at least one thread, nobody
      can move if and only if the places form a standstill. */
  lemma StuckIsStandstill(s: State)
    requires Inv(s) && s.pc != map[]
    ensures Stuck(s) <==> Standstill(s)
  {
    hide CountInv, Step, Stuck, Shares, Owns;
    StuckIsAllBlocked(s);
    UnitTaken(s);
    if Stuck(s) {
      StuckHasHolders(s);
    }
  }

  /** Someone who waits for a mutex waits for a holder, and the holders wait in turn. */
  lemma StuckHasHolders(s: State)
    requires Inv(s) && s.pc != map[] && forall t | t in s.pc :: Blocked(s, t)
    ensures s.r.Some? && s.extra.Some? && s.g <= 0
  {
    hide CountInv;
    UnitTaken(s);
    var t :| t in s.pc;
    assert Blocked(s, t);
    if s.g <= 0 {
      var u :| u in s.pc && (Shares(s.pc[u]) || Owns(s.pc[u]));
      assert Blocked(s, u);
    }
    if s.r.Some? {
      assert Blocked(s, s.r.value);
    }
    if s.extra.Some? {
      assert Blocked(s, s.extra.value);
    }
  }

  /** In every standstill someone downgrades, in the company of another thread, or someone
      upgrades, in the company of two others. */
  lemma WhoStandsStill(s: State) returns (t: Thread, u: Thread, v: Thread)
    requires Inv(s) && s.pc != map[] && Stuck(s)
    ensures t in s.pc && u in s.pc && v in s.pc && t != u
    ensures s.pc[t] == DnLock || (s.pc[t] == UpExtra && t != v && u != v)
  {
    StuckIsStandstill(s);
    var x, y;
    t, x, y := PickHolders(s);
    hide Stuck, Inv, Standstill, HoldsR, HoldsExtra, Shares, Owns, Pending, Waits;
    WaitingPlaces(s.pc[t]);
    WaitingPlaces(s.pc[x]);
    WaitingPlaces(s.pc[y]);
    if s.pc[y] == DnLock {
      t, u, v := y, t, t;
    } else {
      SharersExcludePending(s, y, t);
      u, v := x, y;
    }
  }

  /** What the waiting threads can be holding. */
  lemma WaitingPlaces(p: Pc)
    requires Waits(p)
    ensures HoldsR(p) <==> p == RbExtra || p == RbDown || p == UpExtra
    ensures HoldsExtra(p) <==> p == RbDown || p == WbDown || p == UpDown
    ensures Shares(p) <==> p == UpLock || p == ReLock
    ensures Owns(p) <==> p == DnLock
    ensures Pending(p) <==> p == RbExtra || p == RbDown
  {}

  lemma PickHolders(s: State) returns (t: Thread, x: Thread, y: Thread)
    requires Standstill(s)
    ensures t in s.pc && HoldsR(s.pc[t]) && Waits(s.pc[t])
    ensures x in s.pc && HoldsExtra(s.pc[x]) && Waits(s.pc[x])
    ensures y in s.pc && (Shares(s.pc[y]) || Owns(s.pc[y])) && Waits(s.pc[y])
  {
    hide HoldsR, HoldsExtra, Shares, Owns, Waits;
    t :| t in s.pc && HoldsR(s.pc[t]);
    x :| x in s.pc && HoldsExtra(s.pc[x]);
    y :| y in s.pc && (Shares(s.pc[y]) || Owns(s.pc[y]));
  }

  lemma SharersExcludePending(s: State, v: Thread, t: Thread)
    requires Inv(s) && v in s.pc && t in s.pc && Shares(s.pc[v])
    ensures !Pending(s.pc[t])
  {
    OwnUnit(s, v);
    OwnUnit(s, t);
  }

  // ---- What a client may do without risking it ----

  predicate Downgrades(p: Pc) { p.DnLock? || p.DnCount? || p.DnUnlock? }
  predicate Upgrades(p: Pc) {
    p.UpLock? || p.UpCount? || p.UpUnlock? || p.UpExtra? || p.UpRelease? || p.UpDown? || p.UpFree?
  }

  ghost predicate Keeps(s: State, up: bool, down: bool) {
    forall t | t in s.pc :: (Upgrades(s.pc[t]) ==> up) && (Downgrades(s.pc[t]) ==> down)
  }

  /** A run by exactly the given threads in which upgrades, and downgrades, happen only if allowed. */
  ghost predicate Disciplined(run: seq<State>, threads: set<Thread>, up: bool, down: bool) {
    |run| > 0 && IsRun(run) && run[0].pc.Keys == threads && forall i | 0 <= i < |run| :: Keeps(run[i], up, down)
  }

  /** What a client can check beforehand: no downgrades unless it is alone, and no upgrades
      unless it shares the block with at most one other thread. */
  predicate Harmless(threads: set<Thread>, up: bool, down: bool) {
    (down ==> |threads| < 2) && (up ==> |threads| < 3)
  }

  lemma StepKeepsThreads(s: State, t: Thread, s': State)
    requires t in s.pc && Step(s, t, s')
    ensures s'.pc.Keys == s.pc.Keys
  {
    hide ReadBegin, ReadTry, WriteBegin, Upgrade, Downgrade, ReadEnd;
    StepMovesOne(s, t, s');
  }

  lemma StepMovesOne(s: State, t: Thread, s': State)
    requires t in s.pc && Step(s, t, s')
    ensures t in s'.pc && s'.pc == s.pc[t := s'.pc[t]]
  {}

  lemma {:induction false} RunKeepsThreads(run: seq<State>, i: nat)
    requires IsRun(run) && i < |run|
    ensures run[i].pc.Keys == run[0].pc.Keys
  {
    hide Step, Init;
    if i > 0 {
      RunKeepsThreads(run, i - 1);
      assert Next(run[i - 1], run[i]);
      var t :| t in run[i - 1].pc && Step(run[i - 1], t, run[i]);
      StepKeepsThreads(run[i - 1], t, run[i]);
    }
  }

  lemma AtLeastTwo(x: set<Thread>, t: Thread, u: Thread)
    requires t in x && u in x && t != u
    ensures |x| >= 2
  {
    SubsetCount({t, u}, x);
  }

  lemma AtLeastThree(x: set<Thread>, t: Thread, u: Thread, v: Thread)
    requires t in x && u in x && v in x && t != u && t != v && u != v
    ensures |x| >= 3
  {
    SubsetCount({t, u, v}, x);
  }

  /** A harmless client never comes to a standstill. */
  lemma HarmlessNeverStuck(run: seq<State>, threads: set<Thread>, up: bool, down: bool, i: nat)
    requires threads != {} && Disciplined(run, threads, up, down) && Harmless(threads, up, down) && i < |run|
    ensures !Stuck(run[i])
  {
    hide IsRun, Stuck, Inv;
    var s := run[i];
    RunKeepsInv(run, i);
    RunKeepsThreads(run, i);
    assert s.pc != map[] by { assert s.pc.Keys != {}; }
    if Stuck(s) {
      var t, u, v := WhoStandsStill(s);
      assert Keeps(s, up, down);
      AtLeastTwo(threads, t, u);
      if s.pc[t] == UpExtra {
        AtLeastThree(threads, t, u, v);
      }
    }
  }

  // ---- Two standstills ----

  /** The threads of m where m puts them, the others out. */
  ghost function Places(threads: set<Thread>, m: map<Thread, Pc>): map<Thread, Pc> {
    map t | t in threads :: if t in m then m[t] else Out
  }

  /** The shared fields alone. */
  datatype Shared = Shared(r: Option<Thread>, extra: Option<Thread>, g: int, b: int)

  ghost function With(h: Shared, pc: map<Thread, Pc>): State { State(h.r, h.extra, h.g, h.b, pc) }

  /** May a thread at place p go on to place q, and what does that do to the shared fields?
      (The moves the runs below use.) */
  predicate Lets(h: Shared, p: Pc, q: Pc) {
    match (p, q)
    case (Out, Writing) => h.g > 0
    case (Out, RbLock) => true
    case (Out, RtLock) => true
    case (Writing, DnLock) => true
    case (Reading, UpLock) => true
    case (Reading, ReLock) => true
    case (RbLock, RbCount) => h.r == None
    case (RbCount, RbExtra) => h.b == 0
    case (RbExtra, RbDown) => h.extra == None
    case (RtLock, RtCount) => h.r == None
    case (RtCount, RtDown) => h.b == 0
    case (RtCount, RtUnlock) => h.b != 0
    case (RtDown, RtUnlock) => h.g > 0
    case (RtUnlock, Reading) => true
    case (UpLock, UpCount) => h.r == None
    case (UpCount, UpExtra) => h.b != 1
    case (UpExtra, UpRelease) => h.extra == None
    case (UpRelease, UpDown) => true
    case _ => false
  }

  function Effect(h: Shared, t: Thread, p: Pc, q: Pc): Shared {
    match p
    case RbLock => h.(r := Some(t))
    case RbCount => h.(b := h.b + 1)
    case RbExtra => h.(extra := Some(t))
    case RtLock => h.(r := Some(t))
    case RtCount => h.(b := h.b + 1)
    case RtDown => h.(g := h.g - 1)
    case RtUnlock => h.(r := None)
    case UpLock => h.(r := Some(t))
    case UpCount => h.(b := h.b - 1)
    case UpExtra => h.(extra := Some(t))
    case UpRelease => h.(r := None)
    case _ => if q == Writing then h.(g := h.g - 1) else h
  }

  lemma LetsIsStep(h: Shared, pc: map<Thread, Pc>, t: Thread, q: Pc)
    requires t in pc && Lets(h, pc[t], q)
    ensures Step(With(h, pc), t, With(Effect(h, t, pc[t], q), pc[t := q]))
  {
    var s, s' := With(h, pc), With(Effect(h, t, pc[t], q), pc[t := q]);
    hide At;
    AtPlaces(s, t, q);
  }

  lemma AtPlaces(s: State, t: Thread, q: Pc)
    ensures At(s, t, q) == State(s.r, s.extra, s.g, s.b, s.pc[t := q])
  {}

  lemma Extend(run: seq<State>, t: Thread, s': State)
    requires IsRun(run) && t in run[|run| - 1].pc && Step(run[|run| - 1], t, s')
    ensures IsRun(run + [s'])
  {
    assert Next(run[|run| - 1], s');
    hide Step, Init, Next;
    var r := run + [s'];
    assert r[0] == run[0];
  }

  /** A run that ends with the shared fields h, the threads of m at their places and the rest out. */
  ghost predicate EndsAt(run: seq<State>, threads: set<Thread>, up: bool, down: bool, h: Shared, m: map<Thread, Pc>) {
    Disciplined(run, threads, up, down) && run[|run| - 1] == With(h, Places(threads, m))
  }

  lemma PlacesMoved(threads: set<Thread>, m: map<Thread, Pc>, t: Thread, p: Pc)
    requires t in threads
    ensures Places(threads, m)[t := p] == Places(threads, m[t := p])
  {}

  lemma KeepsMoved(s: State, s': State, up: bool, down: bool, t: Thread, p: Pc)
    requires Keeps(s, up, down) && t in s.pc && s'.pc == s.pc[t := p]
    requires (Upgrades(p) ==> up) && (Downgrades(p) ==> down)
    ensures Keeps(s', up, down)
  {}

  lemma DisciplinedMore(run: seq<State>, threads: set<Thread>, up: bool, down: bool, s: State)
    requires Disciplined(run, threads, up, down) && IsRun(run + [s]) && Keeps(s, up, down)
    ensures Disciplined(run + [s], threads, up, down)
  {
    hide IsRun, Keeps;
    var r := run + [s];
    forall i | 0 <= i < |r| ensures Keeps(r[i], up, down) {
      assert i < |run| ==> r[i] == run[i];
    }
    assert r[0] == run[0];
  }

  /** Thread t moves on from place p to place q. */
  lemma Onward(run: seq<State>, threads: set<Thread>, up: bool, down: bool, h: Shared, m: map<Thread, Pc>, t: Thread,
               p: Pc, q: Pc)
    returns (next: seq<State>)
    requires EndsAt(run, threads, up, down, h, m) && t in threads && p == (if t in m then m[t] else Out)
    requires Lets(h, p, q) && (Upgrades(q) ==> up) && (Downgrades(q) ==> down)
    ensures EndsAt(next, threads, up, down, Effect(h, t, p, q), m[t := q])
  {
    hide IsRun, Step, Lets, Effect, Upgrades, Downgrades, Keeps;
    var s := run[|run| - 1];
    var s' := With(Effect(h, t, p, q), Places(threads, m[t := q]));
    PlacesMoved(threads, m, t, q);
    LetsIsStep(h, Places(threads, m), t, q);
    Extend(run, t, s');
    KeepsMoved(s, s', up, down, t, q);
    DisciplinedMore(run, threads, up, down, s');
    next := run + [s'];
  }

  /** Everyone out: the shortest run. */
  lemma Start(threads: set<Thread>, up: bool, down: bool) returns (run: seq<State>)
    ensures EndsAt(run, threads, up, down, Shared(None, None, 1, 0), map[])
  {
    run := [State(None, None, 1, 0, Places(threads, map[]))];
    assert run[0].pc.Keys == threads;
  }

  /** y writes and x wants to read: x has r ... */
  lemma WriterMeetsReader(threads: set<Thread>, up: bool, x: Thread, y: Thread) returns (run: seq<State>)
    requires x in threads && y in threads && x != y
    ensures EndsAt(run, threads, up, true, Shared(Some(x), None, 0, 0), map[x := RbCount, y := Writing])
  {
    hide EndsAt;
    run := Start(threads, up, true);
    run := Onward(run, threads, up, true, Shared(None, None, 1, 0), map[], y, Out, Writing);
    run := Onward(run, threads, up, true, Shared(None, None, 0, 0), map[y := Writing], x, Out, RbLock);
    assert map[y := Writing][x := RbLock] == map[x := RbLock, y := Writing];
    run := Onward(run, threads, up, true, Shared(None, None, 0, 0), map[x := RbLock, y := Writing], x, RbLock, RbCount);
    assert map[x := RbLock, y := Writing][x := RbCount] == map[x := RbCount, y := Writing];
  }

  /** ... and extra, and y is about to downgrade. */
  lemma ReaderWaits(from: seq<State>, threads: set<Thread>, up: bool, x: Thread, y: Thread) returns (run: seq<State>)
    requires x in threads && y in threads && x != y
    requires EndsAt(from, threads, up, true, Shared(Some(x), None, 0, 0), map[x := RbCount, y := Writing])
    ensures EndsAt(run, threads, up, true, Shared(Some(x), Some(x), 0, 1), map[x := RbDown, y := Writing])
  {
    hide EndsAt;
    run := Onward(from, threads, up, true, Shared(Some(x), None, 0, 0),
                  map[x := RbCount, y := Writing], x, RbCount, RbExtra);
    assert map[x := RbCount, y := Writing][x := RbExtra] == map[x := RbExtra, y := Writing];
    run := Onward(run, threads, up, true, Shared(Some(x), None, 0, 1),
                  map[x := RbExtra, y := Writing], x, RbExtra, RbDown);
    assert map[x := RbExtra, y := Writing][x := RbDown] == map[x := RbDown, y := Writing];
  }

  lemma DowngradeMeetsReader(from: seq<State>, threads: set<Thread>, up: bool, x: Thread, y: Thread)
    returns (run: seq<State>)
    requires x in threads && y in threads && x != y
    requires EndsAt(from, threads, up, true, Shared(Some(x), None, 0, 0), map[x := RbCount, y := Writing])
    ensures EndsAt(run, threads, up, true, Shared(Some(x), Some(x), 0, 1), map[x := RbDown, y := DnLock])
  {
    hide EndsAt;
    run := ReaderWaits(from, threads, up, x, y);
    run := Onward(run, threads, up, true, Shared(Some(x), Some(x), 0, 1),
                  map[x := RbDown, y := Writing], y, Writing, DnLock);
    assert map[x := RbDown, y := Writing][y := DnLock] == map[x := RbDown, y := DnLock];
  }

  /** Three readers, one after the other. */
  lemma FirstReader(threads: set<Thread>, down: bool, x: Thread, y: Thread, z: Thread) returns (run: seq<State>)
    requires x in threads && y in threads && z in threads && x != y && x != z && y != z
    ensures EndsAt(run, threads, true, down, Shared(None, None, 0, 1), map[x := Reading])
  {
    hide EndsAt;
    run := Start(threads, true, down);
    run := Onward(run, threads, true, down, Shared(None, None, 1, 0), map[], x, Out, RtLock);
    assert map[][x := RtLock] == map[x := RtLock];
    run := Onward(run, threads, true, down, Shared(None, None, 1, 0), map[x := RtLock], x, RtLock, RtCount);
    assert map[x := RtLock][x := RtCount] == map[x := RtCount];
    run := Onward(run, threads, true, down, Shared(Some(x), None, 1, 0), map[x := RtCount], x, RtCount, RtDown);
    assert map[x := RtCount][x := RtDown] == map[x := RtDown];
    run := Onward(run, threads, true, down, Shared(Some(x), None, 1, 1), map[x := RtDown], x, RtDown, RtUnlock);
    assert map[x := RtDown][x := RtUnlock] == map[x := RtUnlock];
    run := Onward(run, threads, true, down, Shared(Some(x), None, 0, 1), map[x := RtUnlock], x, RtUnlock, Reading);
    assert map[x := RtUnlock][x := Reading] == map[x := Reading];
  }

  // The second ...
  lemma SecondReader(from: seq<State>, threads: set<Thread>, down: bool, x: Thread, y: Thread, z: Thread)
    returns (run: seq<State>)
    requires x in threads && y in threads && z in threads && x != y && x != z && y != z
    requires EndsAt(from, threads, true, down, Shared(None, None, 0, 1), map[x := Reading])
    ensures EndsAt(run, threads, true, down, Shared(None, None, 0, 2), map[x := Reading, y := Reading])
  {
    hide EndsAt;
    run := from;
    run := Onward(run, threads, true, down, Shared(None, None, 0, 1), map[x := Reading], y, Out, RtLock);
    assert map[x := Reading][y := RtLock] == map[x := Reading, y := RtLock];
    run := Onward(run, threads, true, down, Shared(None, None, 0, 1),
                  map[x := Reading, y := RtLock], y, RtLock, RtCount);
    assert map[x := Reading, y := RtLock][y := RtCount] == map[x := Reading, y := RtCount];
    run := Onward(run, threads, true, down, Shared(Some(y), None, 0, 1),
                  map[x := Reading, y := RtCount], y, RtCount, RtUnlock);
    assert map[x := Reading, y := RtCount][y := RtUnlock] == map[x := Reading, y := RtUnlock];
    run := Onward(run, threads, true, down, Shared(Some(y), None, 0, 2),
                  map[x := Reading, y := RtUnlock], y, RtUnlock, Reading);
    assert map[x := Reading, y := RtUnlock][y := Reading] == map[x := Reading, y := Reading];
  }

  // ... and the third.
  lemma ThirdReader(from: seq<State>, threads: set<Thread>, down: bool, x: Thread, y: Thread, z: Thread)
    returns (run: seq<State>)
    requires x in threads && y in threads && z in threads && x != y && x != z && y != z
    requires EndsAt(from, threads, true, down, Shared(None, None, 0, 2), map[x := Reading, y := Reading])
    ensures EndsAt(run, threads, true, down, Shared(None, None, 0, 3), map[x := Reading, y := Reading, z := Reading])
  {
    hide EndsAt;
    run := from;
    run := Onward(run, threads, true, down, Shared(None, None, 0, 2), map[x := Reading, y := Reading], z, Out, RtLock);
    assert map[x := Reading, y := Reading][z := RtLock] == map[x := Reading, y := Reading, z := RtLock];
    run := Onward(run, threads, true, down, Shared(None, None, 0, 2),
                  map[x := Reading, y := Reading, z := RtLock], z, RtLock, RtCount);
    assert map[x := Reading, y := Reading, z := RtLock][z := RtCount] == map[x := Reading, y := Reading, z := RtCount];
    run := Onward(run, threads, true, down, Shared(Some(z), None, 0, 2),
                  map[x := Reading, y := Reading, z := RtCount], z, RtCount, RtUnlock);
    assert map[x := Reading, y := Reading, z := RtCount][z := RtUnlock]
        == map[x := Reading, y := Reading, z := RtUnlock];
    run := Onward(run, threads, true, down, Shared(Some(z), None, 0, 3),
                  map[x := Reading, y := Reading, z := RtUnlock], z, RtUnlock, Reading);
    assert map[x := Reading, y := Reading, z := RtUnlock][z := Reading]
        == map[x := Reading, y := Reading, z := Reading];
  }

  /** The first upgrades: it has r ... */
  lemma FirstCounts(from: seq<State>, threads: set<Thread>, down: bool, x: Thread, y: Thread, z: Thread)
    returns (run: seq<State>)
    requires x in threads && y in threads && z in threads && x != y && x != z && y != z
    requires EndsAt(from, threads, true, down, Shared(None, None, 0, 3), map[x := Reading, y := Reading, z := Reading])
    ensures EndsAt(run, threads, true, down, Shared(Some(x), None, 0, 2), map[x := UpExtra, y := Reading, z := Reading])
  {
    hide EndsAt;
    run := from;
    run := Onward(run, threads, true, down, Shared(None, None, 0, 3),
                  map[x := Reading, y := Reading, z := Reading], x, Reading, UpLock);
    assert map[x := Reading, y := Reading, z := Reading][x := UpLock] == map[x := UpLock, y := Reading, z := Reading];
    run := Onward(run, threads, true, down, Shared(None, None, 0, 3),
                  map[x := UpLock, y := Reading, z := Reading], x, UpLock, UpCount);
    assert map[x := UpLock, y := Reading, z := Reading][x := UpCount] == map[x := UpCount, y := Reading, z := Reading];
    run := Onward(run, threads, true, down, Shared(Some(x), None, 0, 3),
                  map[x := UpCount, y := Reading, z := Reading], x, UpCount, UpExtra);
    assert map[x := UpCount, y := Reading, z := Reading][x := UpExtra] == map[x := UpExtra, y := Reading, z := Reading];
  }

  // ... then extra, and waits for g.
  lemma FirstUpgrade(from: seq<State>, threads: set<Thread>, down: bool, x: Thread, y: Thread, z: Thread)
    returns (run: seq<State>)
    requires x in threads && y in threads && z in threads && x != y && x != z && y != z
    requires EndsAt(from, threads, true, down, Shared(Some(x), None, 0, 2),
                    map[x := UpExtra, y := Reading, z := Reading])
    ensures EndsAt(run, threads, true, down, Shared(None, Some(x), 0, 2), map[x := UpDown, y := Reading, z := Reading])
  {
    hide EndsAt;
    run := from;
    run := Onward(run, threads, true, down, Shared(Some(x), None, 0, 2),
                  map[x := UpExtra, y := Reading, z := Reading], x, UpExtra, UpRelease);
    assert map[x := UpExtra, y := Reading, z := Reading][x := UpRelease]
        == map[x := UpRelease, y := Reading, z := Reading];
    run := Onward(run, threads, true, down, Shared(Some(x), Some(x), 0, 2),
                  map[x := UpRelease, y := Reading, z := Reading], x, UpRelease, UpDown);
    assert map[x := UpRelease, y := Reading, z := Reading][x := UpDown] == map[x := UpDown, y := Reading, z := Reading];
  }

  /** The second upgrades as well: it has r and waits for extra; and the third, who has g, waits for r. */
  lemma SecondUpgrade(from: seq<State>, threads: set<Thread>, down: bool, x: Thread, y: Thread, z: Thread)
    returns (run: seq<State>)
    requires x in threads && y in threads && z in threads && x != y && x != z && y != z
    requires EndsAt(from, threads, true, down, Shared(None, Some(x), 0, 2),
                    map[x := UpDown, y := Reading, z := Reading])
    ensures EndsAt(run, threads, true, down, Shared(Some(y), Some(x), 0, 1),
                    map[x := UpDown, y := UpExtra, z := ReLock])
  {
    hide EndsAt;
    run := from;
    run := Onward(run, threads, true, down, Shared(None, Some(x), 0, 2),
                  map[x := UpDown, y := Reading, z := Reading], y, Reading, UpLock);
    assert map[x := UpDown, y := Reading, z := Reading][y := UpLock] == map[x := UpDown, y := UpLock, z := Reading];
    run := Onward(run, threads, true, down, Shared(None, Some(x), 0, 2),
                  map[x := UpDown, y := UpLock, z := Reading], y, UpLock, UpCount);
    assert map[x := UpDown, y := UpLock, z := Reading][y := UpCount] == map[x := UpDown, y := UpCount, z := Reading];
    run := Onward(run, threads, true, down, Shared(Some(y), Some(x), 0, 2),
                  map[x := UpDown, y := UpCount, z := Reading], y, UpCount, UpExtra);
    assert map[x := UpDown, y := UpCount, z := Reading][y := UpExtra] == map[x := UpDown, y := UpExtra, z := Reading];
    run := Onward(run, threads, true, down, Shared(Some(y), Some(x), 0, 1),
                  map[x := UpDown, y := UpExtra, z := Reading], z, Reading, ReLock);
    assert map[x := UpDown, y := UpExtra, z := Reading][z := ReLock] == map[x := UpDown, y := UpExtra, z := ReLock];
  }

  /** Threads that are still out join the queue for r, until nobody can move. */
  lemma {:induction false} QueueUp(run: seq<State>, threads: set<Thread>, up: bool, down: bool, h: Shared,
                                   m: map<Thread, Pc>)
    returns (stuck: seq<State>)
    requires EndsAt(run, threads, up, down, h, m) && h.r.Some? && m.Keys <= threads
    requires forall t | t in m :: Blocked(With(h, m), t)
    ensures Disciplined(stuck, threads, up, down) && |stuck| > 0 && Stuck(stuck[|stuck| - 1])
    decreases threads - m.Keys
  {
    hide Disciplined, Stuck, IsRun;
    if m.Keys == threads {
      stuck := run;
      NotEmpty(run, threads, up, down);
      var s := run[|run| - 1];
      forall t | t in s.pc ensures Blocked(s, t) {
        assert Blocked(With(h, m), t);
      }
      StuckIsAllBlocked(s);
    } else {
      var t :| t in threads && t !in m;
      var next := Onward(run, threads, up, down, h, m, t, Out, RbLock);
      var m' := m[t := RbLock];
      forall u | u in m' ensures Blocked(With(h, m'), u) {
        assert u != t ==> Blocked(With(h, m), u);
      }
      assert threads - m'.Keys == (threads - m.Keys) - {t} && t in threads - m.Keys;
      stuck := QueueUp(next, threads, up, down, h, m');
    }
  }

  lemma NotEmpty(run: seq<State>, threads: set<Thread>, up: bool, down: bool)
    requires Disciplined(run, threads, up, down)
    ensures |run| > 0
  {}

  /** Progress is lost to a downgrade: cache_downgrade asks for r while it holds g, and
      cache_read_begin asks for g while it holds r. */
  lemma DowngradeCanDeadlock(threads: set<Thread>, up: bool) returns (run: seq<State>)
    requires |threads| >= 2
    ensures Disciplined(run, threads, up, true) && |run| > 0 && Stuck(run[|run| - 1])
  {
    hide EndsAt, Disciplined, Stuck;
    var x :| x in threads;
    assert |threads - {x}| == |threads| - 1;
    var y :| y in threads - {x};
    run := WriterMeetsReader(threads, up, x, y);
    run := DowngradeMeetsReader(run, threads, up, x, y);
    run := QueueUp(run, threads, up, true, Shared(Some(x), Some(x), 0, 1), map[x := RbDown, y := DnLock]);
  }

  /** And to two upgrades beside a third reader: cache_upgrade asks for extra while it holds
      r, the upgrader before it has extra and waits for g, and the reader cannot end. */
  lemma UpgradeCanDeadlock(threads: set<Thread>, down: bool) returns (run: seq<State>)
    requires |threads| >= 3
    ensures Disciplined(run, threads, true, down) && |run| > 0 && Stuck(run[|run| - 1])
  {
    hide EndsAt, Disciplined, Stuck;
    var x :| x in threads;
    assert |threads - {x}| == |threads| - 1;
    var y :| y in threads - {x};
    assert |threads - {x} - {y}| == |threads| - 2;
    var z :| z in threads - {x} - {y};
    run := FirstReader(threads, down, x, y, z);
    run := SecondReader(run, threads, down, x, y, z);
    run := ThirdReader(run, threads, down, x, y, z);
    run := FirstCounts(run, threads, down, x, y, z);
    run := FirstUpgrade(run, threads, down, x, y, z);
    run := SecondUpgrade(run, threads, down, x, y, z);
    run := QueueUp(run, threads, true, down, Shared(Some(y), Some(x), 0, 1),
                   map[x := UpDown, y := UpExtra, z := ReLock]);
  }

  /** The exact condition for progress: however its threads are interleaved, a client never
      comes to a standstill if and only if it is harmless. */
  lemma ProgressCondition(threads: set<Thread>, up: bool, down: bool)
    requires threads != {}
    ensures Harmless(threads, up, down)
            <==> forall run | Disciplined(run, threads, up, down) :: |run| > 0 && !Stuck(run[|run| - 1])
  {
    hide Disciplined, Stuck;
    if Harmless(threads, up, down) {
      forall run | Disciplined(run, threads, up, down) ensures |run| > 0 && !Stuck(run[|run| - 1]) {
        NotEmpty(run, threads, up, down);
        HarmlessNeverStuck(run, threads, up, down, |run| - 1);
      }
    } else if down && |threads| >= 2 {
      var run := DowngradeCanDeadlock(threads, up);
    } else {
      var run := UpgradeCanDeadlock(threads, down);
    }
  }
}
