/** The multi-level feedback accounting of src/threads/thread.c over the 17.14 fixed point of
    src/threads/fixed_point.c. Every stored value is wrapped to 32 bits as the machine does;
    EveryRun shows the wrapping never shows. */
module Feedback {
  import opened Division64

  const F := 16384          // FIXED_POINT_MULTIPLIER
  const TIMER_FREQ := 100
  const PRI_MAX := 63

  // ---- Fixed point ----

  /** Conversion to a 32-bit two's complement integer. */
  function Int32(x: int): (r: int)
    ensures -0x8000_0000 <= r < 0x8000_0000
    ensures -0x8000_0000 <= x < 0x8000_0000 ==> r == x
  {
    (x + 0x8000_0000) % 0x1_0000_0000 - 0x8000_0000
  }

  /** C division, which truncates toward zero. */
  function Quot(x: int, d: int): int
    requires d > 0
  {
    if x >= 0 then x / d else -(-x / d)
  }

  function ToFp(n: int): int { Int32(n * F) }
  function RoundFp(x: int): int { if x > 0 then Quot(x + F / 2, F) else Quot(x - F / 2, F) }
  function Multiply(x: int, y: int): int { Int32(Quot(x * y, F)) }
  function Divide(x: int, y: int): int
    requires y > 0
  {
    Int32(Quot(x * F, y))
  }

  /** round_fp gives a nearest integer. */
  lemma RoundIsNearest(x: int)
    ensures -F <= 2 * (RoundFp(x) * F - x) <= F
  {}

  /** to_fp and round_fp undo each other where to_fp fits. */
  lemma RoundOfInteger(n: int)
    requires -131072 <= n < 131072
    ensures RoundFp(ToFp(n)) == n
  {}

  // ---- The recurrences ----

  /** update_load_avg, with `running` threads ready or running. */
  function NewLoad(load: int, running: nat): int {
    Int32(Multiply(Quot(ToFp(59), 60), load) + Quot(ToFp(1), 60) * running)
  }

  /** The coefficient 2 * load_avg / (2 * load_avg + 1). */
  function Coefficient(load: int): int
    requires Int32(Int32(2 * load) + ToFp(1)) > 0
  {
    Divide(Int32(2 * load), Int32(Int32(2 * load) + ToFp(1)))
  }

  /** update_recent_cpu. */
  function Decayed(load: int, recent: int, nice: int): int
    requires Int32(Int32(2 * load) + ToFp(1)) > 0
  {
    Int32(Multiply(recent, Coefficient(load)) + ToFp(nice))
  }

  /** thread_update_mlfqs_priority. */
  function PriorityFor(recent: int, nice: int): (p: int)
    ensures 0 <= p <= PRI_MAX
  {
    var update := PRI_MAX - RoundFp(Quot(recent, 4)) - nice * 2;
    if update < 0 then 0 else if update > PRI_MAX then PRI_MAX else update
  }

  /** Within the range the formula is followed; and using more of the processor, or being
      nicer, never raises the priority. */
  lemma PriorityFollows(recent: int, nice: int, recent': int, nice': int)
    requires recent <= recent' && nice <= nice'
    ensures PriorityFor(recent', nice') <= PriorityFor(recent, nice)
    ensures var p := PRI_MAX - RoundFp(Quot(recent, 4)) - nice * 2; 0 <= p <= PRI_MAX ==> PriorityFor(recent, nice) == p
  {
    QuotGrows(recent, recent', 4);
    var a, b := Quot(recent, 4), Quot(recent', 4);
    if a > 0 {
      QuotGrows(a + F / 2, b + F / 2, F);
    } else if b > 0 {
      QuotGrows(a - F / 2, b + F / 2, F);
    } else {
      QuotGrows(a - F / 2, b - F / 2, F);
    }
  }

  lemma QuotGrows(x: int, y: int, d: int)
    requires x <= y && (d == 4 || d == F)
    ensures Quot(x, d) <= Quot(y, d)
  {}

  // ---- What the values mean ----

  /** q is x / d with the fraction dropped. */
  ghost predicate Truncates(x: int, d: int, q: int) {
    if x >= 0 then q * d <= x < q * d + d else q * d - d < x <= q * d
  }

  /** r is the integer nearest to x / F; of two the one further from zero. */
  ghost predicate Nearest(x: int, r: int) {
    if x > 0 then -F < 2 * (r * F - x) <= F else -F < 2 * (x - r * F) <= F
  }

  lemma QuotTruncates(x: int, d: int)
    requires d > 0
    ensures Truncates(x, d, Quot(x, d))
  {
    if x >= 0 {
      FloorIsQuotient(x, d);
    } else {
      FloorIsQuotient(-x, d);
      assert Quot(x, d) * d == -((-x / d) * d);
    }
  }

  lemma RoundsToNearest(x: int)
    ensures Nearest(x, RoundFp(x))
  {}

  /** 63 less a quarter of recent_cpu, rounded, and twice nice, held within [0, 63]. */
  ghost predicate PriceOf(recent: int, nice: int, p: int) {
    exists q: int, r: int :: Truncates(recent, 4, q) && Nearest(q, r)
      && p == if 63 - r - 2 * nice < 0 then 0 else if 63 - r - 2 * nice > 63 then 63 else 63 - r - 2 * nice
  }

  lemma PriorityIsPrice(recent: int, nice: int)
    ensures PriceOf(recent, nice, PriorityFor(recent, nice))
  {
    hide Quot, RoundFp, Truncates, Nearest;
    var q := Quot(recent, 4);
    QuotTruncates(recent, 4);
    RoundsToNearest(q);
    assert Truncates(recent, 4, q) && Nearest(q, RoundFp(q));
  }

  /** `now` is recent_cpu times 2 load / (2 load + 1), each quotient truncated, plus nice. */
  ghost predicate DecayOf(load: int, recent: int, nice: int, now: int) {
    exists a: int :: IsQuotient(2 * load * F, 2 * load + F, a) && Truncates(recent * a, F, now - nice * F)
  }

  lemma DecayedIsDecay(load: int, recent: int, nice: int, n: nat)
    requires n <= MAX_THREADS && LoadOk(load, n) && RecentOk(recent, n, TIMER_FREQ) && -20 <= nice <= 20
    ensures Int32(Int32(2 * load) + ToFp(1)) > 0
    ensures DecayOf(load, recent, nice, Decayed(load, recent, nice))
  {
    hide Quot, Truncates, IsQuotient, Decayed, Coefficient, RecentOk;
    CoefficientBound(load, n);
    RecentStays(load, recent, nice, n);
    var a := Coefficient(load);
    QuotTruncates(recent * a, F);
    assert IsQuotient(2 * load * F, 2 * load + F, a) && Truncates(recent * a, F, Quot(recent * a, F));
  }

  // ---- Bounds ----

  /** What load_avg and recent_cpu stay within when at most n threads are ever ready or
      running; p ticks have passed since the last second began. */
  ghost predicate LoadOk(load: int, n: nat) { 0 <= load <= n * F }

  ghost predicate RecentOk(recent: int, n: nat, p: nat) {
    -20 * (2 * n + 1) * F <= recent <= (240 * n + 20 + p) * F
  }

  /** The largest thread count for which 120 (2 n + 1), in fixed point, fits in 32 bits. */
  const MAX_THREADS := 545

  lemma MaxThreadsIsLargest(n: nat)
    ensures n <= MAX_THREADS <==> 120 * (2 * n + 1) * F < 0x8000_0000
  {}

  lemma RecentFits(recent: int, n: nat, p: nat)
    requires n <= MAX_THREADS && p <= TIMER_FREQ && RecentOk(recent, n, p)
    ensures -0x8000_0000 <= recent < 0x8000_0000
    ensures -20 * (2 * n + 1) * F <= recent <= 120 * (2 * n + 1) * F
  {}

  lemma LoadStays(load: int, n: nat, running: nat)
    requires n <= MAX_THREADS && LoadOk(load, n) && running <= n
    ensures LoadOk(NewLoad(load, running), n)
    ensures NewLoad(load, running) == 16110 * load / F + 273 * running
  {
    assert Quot(ToFp(59), 60) == 16110 && Quot(ToFp(1), 60) == 273;
  }

  /** The coefficient is at most 2n / (2n + 1). */
  lemma CoefficientBound(load: int, n: nat)
    requires n <= MAX_THREADS && LoadOk(load, n)
    ensures Int32(Int32(2 * load) + ToFp(1)) == 2 * load + F > 0
    ensures var a := Coefficient(load); 0 <= a <= F && a * (2 * n + 1) <= 2 * n * F
    ensures IsQuotient(2 * load * F, 2 * load + F, Coefficient(load))
  {
    var x, y := 2 * load * F, 2 * load + F;
    var a := x / y;
    FloorIsQuotient(x, y);
    QuotientBelow(load, n, a);
    assert Coefficient(load) == a;
  }

  lemma QuotientBelow(load: int, n: nat, a: int)
    requires LoadOk(load, n) && IsQuotient(2 * load * F, 2 * load + F, a)
    ensures 0 <= a <= F && a * (2 * n + 1) <= 2 * n * F
  {
    var y := 2 * load + F;
    if a < 0 {
      MulMono(a, -1, y);
    }
    if a > F {
      MulMono(F + 1, a, y);
    }
    Distribute(2 * load, F, a);
    assert a * y == 2 * load * a + F * a;
    MulMono(2 * load, 2 * n * F, F - a);
    assert 2 * load * (F - a) == 2 * load * F - 2 * load * a;
    assert 2 * n * F * (F - a) == F * (2 * n * (F - a));
    assert 2 * n * (F - a) == 2 * n * F - 2 * n * a;
    assert a * (2 * n + 1) == 2 * n * a + a;
  }

  lemma ScaledUp(r: int, a: int, n: nat, c: nat)
    requires 0 <= a && a * (2 * n + 1) <= 2 * n * F && 0 <= r <= c * (2 * n + 1) * F
    ensures 0 <= r * a <= c * (2 * n) * F * F
  {
    var b := c * F;
    assert c * (2 * n + 1) * F == (2 * n + 1) * b;
    MulMono(r, (2 * n + 1) * b, a);
    MulMono(0, r, a);
    assert (2 * n + 1) * b * a == (a * (2 * n + 1)) * b;
    MulMono(a * (2 * n + 1), 2 * n * F, b);
    assert 2 * n * F * b == c * (2 * n) * F * F;
  }

  /** Once a second recent_cpu falls back below its bound, whatever it was within. */
  lemma RecentStays(load: int, recent: int, nice: int, n: nat)
    requires n <= MAX_THREADS && LoadOk(load, n) && RecentOk(recent, n, TIMER_FREQ) && -20 <= nice <= 20
    ensures Int32(Int32(2 * load) + ToFp(1)) > 0
    ensures RecentOk(Decayed(load, recent, nice), n, 0)
    ensures Decayed(load, recent, nice) == Quot(recent * Coefficient(load), F) + nice * F
  {
    CoefficientBound(load, n);
    var a := Coefficient(load);
    DecayRange(recent, a, n);
  }

  lemma DecayRange(recent: int, a: int, n: nat)
    requires n <= MAX_THREADS && 0 <= a <= F && a * (2 * n + 1) <= 2 * n * F && RecentOk(recent, n, TIMER_FREQ)
    ensures -40 * n * F <= Quot(recent * a, F) <= 240 * n * F
  {
    if recent >= 0 {
      ScaledUp(recent, a, n, 120);
    } else {
      ScaledUp(-recent, a, n, 20);
      assert -(recent * a) == (-recent) * a;
    }
  }

  // ---- Every tick of every run ----

  datatype Account = Account(recent: int, nice: int, priority: int)

  datatype Ledger = Ledger(load: int, accounts: map<nat, Account>, ticks: nat, current: nat, idle: nat)

  ghost predicate AccountOk(a: Account, n: nat, p: nat) {
    RecentOk(a.recent, n, p) && -20 <= a.nice <= 20 && 0 <= a.priority <= PRI_MAX
  }

  /** Everything within bounds, p ticks into the second. */
  ghost predicate Within(s: Ledger, n: nat, p: nat) {
    && LoadOk(s.load, n) && s.current in s.accounts
    && forall t | t in s.accounts :: AccountOk(s.accounts[t], n, p)
  }

  /** The running thread is charged for the tick. */
  function Charged(s: Ledger): Ledger
    requires s.current in s.accounts
  {
    var a := s.accounts[s.current];
    s.(ticks := s.ticks + 1, accounts := s.accounts[s.current := a.(recent := Int32(a.recent + ToFp(1)))])
  }

  lemma ChargedRest(s: Ledger)
    requires s.current in s.accounts
    ensures var c := Charged(s);
            c.load == s.load && c.ticks == s.ticks + 1 && c.current == s.current && c.idle == s.idle
  {}

  function Running(s: Ledger, ready: nat): nat { ready + if s.current != s.idle then 1 else 0 }

  ghost function DecayAll(load: int, accounts: map<nat, Account>): map<nat, Account>
    requires Int32(Int32(2 * load) + ToFp(1)) > 0
  {
    map t | t in accounts :: accounts[t].(recent := Decayed(load, accounts[t].recent, accounts[t].nice))
  }

  ghost function PriceAll(idle: nat, accounts: map<nat, Account>): map<nat, Account> {
    map t | t in accounts ::
      if t == idle then accounts[t] else accounts[t].(priority := PriorityFor(accounts[t].recent, accounts[t].nice))
  }

  /** The work of a second: the load, then everyone's recent_cpu. */
  ghost function Second(s: Ledger, ready: nat): Ledger
    requires var load := NewLoad(s.load, Running(s, ready)); Int32(Int32(2 * load) + ToFp(1)) > 0
  {
    var load := NewLoad(s.load, Running(s, ready));
    s.(load := load, accounts := DecayAll(load, s.accounts))
  }

  /** Every fourth tick the priorities follow. */
  ghost function Repriced(s: Ledger): Ledger { s.(accounts := PriceAll(s.idle, s.accounts)) }

  lemma ChargedWithin(s: Ledger, n: nat)
    requires n <= MAX_THREADS && Within(s, n, s.ticks % TIMER_FREQ)
    ensures Within(Charged(s), n, s.ticks % TIMER_FREQ + 1)
    ensures Charged(s).accounts[s.current].recent == s.accounts[s.current].recent + F
  {
    var p := s.ticks % TIMER_FREQ;
    assert AccountOk(s.accounts[s.current], n, p);
    var k := Charged(s);
    RecentFits(s.accounts[s.current].recent, n, p);
    forall t | t in k.accounts ensures AccountOk(k.accounts[t], n, p + 1) {
      assert AccountOk(s.accounts[t], n, p);
    }
  }

  lemma SecondWithin(s: Ledger, n: nat, ready: nat)
    requires n <= MAX_THREADS && Within(s, n, TIMER_FREQ) && Running(s, ready) <= n
    ensures var load := NewLoad(s.load, Running(s, ready)); Int32(Int32(2 * load) + ToFp(1)) > 0
    ensures Within(Second(s, ready), n, 0)
  {
    hide RecentOk, Decayed, NewLoad, Int32, ToFp;
    var load := NewLoad(s.load, Running(s, ready));
    LoadStays(s.load, n, Running(s, ready));
    CoefficientBound(load, n);
    forall t | t in s.accounts ensures RecentOk(Decayed(load, s.accounts[t].recent, s.accounts[t].nice), n, 0) {
      assert AccountOk(s.accounts[t], n, TIMER_FREQ);
      RecentStays(load, s.accounts[t].recent, s.accounts[t].nice, n);
    }
    var k := Second(s, ready);
    forall t | t in k.accounts ensures AccountOk(k.accounts[t], n, 0) {
      assert AccountOk(s.accounts[t], n, TIMER_FREQ);
    }
  }

  lemma RepricedWithin(s: Ledger, n: nat, p: nat)
    requires Within(s, n, p)
    ensures Within(Repriced(s), n, p)
  {
    hide RecentOk, PriorityFor;
    var k := Repriced(s);
    forall t | t in k.accounts ensures AccountOk(k.accounts[t], n, p) {
      assert AccountOk(s.accounts[t], n, p);
      PriorityRange(s.accounts[t].recent, s.accounts[t].nice);
    }
  }

  lemma PriorityRange(recent: int, nice: int)
    ensures 0 <= PriorityFor(recent, nice) <= PRI_MAX
  {}

  /** thread_tick's accounting. */
  ghost function Ticked(s: Ledger, ready: nat): Ledger
    requires s.current in s.accounts
    requires var load := NewLoad(s.load, Running(s, ready)); Int32(Int32(2 * load) + ToFp(1)) > 0
  {
    var c := Charged(s);
    var d := if c.ticks % TIMER_FREQ == 0 then Second(c, ready) else c;
    if c.ticks % 4 == 0 then Repriced(d) else d
  }

  lemma InRange(s: Ledger, n: nat, p: nat, ready: nat)
    requires n <= MAX_THREADS && Within(s, n, p) && Running(s, ready) <= n
    ensures var load := NewLoad(s.load, Running(s, ready)); Int32(Int32(2 * load) + ToFp(1)) > 0
    ensures s.current in s.accounts
  {
    hide NewLoad, Int32, ToFp, RecentOk, Coefficient;
    LoadStays(s.load, n, Running(s, ready));
    CoefficientBound(NewLoad(s.load, Running(s, ready)), n);
  }

  lemma TickedWithin(s: Ledger, n: nat, ready: nat)
    requires n <= MAX_THREADS && Within(s, n, s.ticks % TIMER_FREQ) && Running(s, ready) <= n
    ensures var load := NewLoad(s.load, Running(s, ready)); Int32(Int32(2 * load) + ToFp(1)) > 0
    ensures var k := Ticked(s, ready); Within(k, n, k.ticks % TIMER_FREQ)
  {
    hide Within, NewLoad, Int32, ToFp, DecayAll, PriceAll;
    InRange(s, n, s.ticks % TIMER_FREQ, ready);
    ChargedWithin(s, n);
    var c := Charged(s);
    var d := if c.ticks % TIMER_FREQ == 0 then Second(c, ready) else c;
    if c.ticks % TIMER_FREQ == 0 {
      SecondWithin(c, n, ready);
    }
    RepricedWithin(d, n, c.ticks % TIMER_FREQ);
  }

  /** recent_cpu with the tick charged to the running thread. */
  ghost function WithTick(s: Ledger, t: nat): int
    requires t in s.accounts
  {
    s.accounts[t].recent + if t == s.current then F else 0
  }

  /** One tick, from s to k: every hundredth one the load moves a sixtieth of the way to the number
      of threads ready or running, and everyone's recent_cpu decays by it; every fourth one the
      priorities follow recent_cpu and nice; nothing else changes. */
  ghost predicate Advances(s: Ledger, k: Ledger, ready: nat) {
    && k.ticks == s.ticks + 1 && k.current == s.current && k.idle == s.idle && k.accounts.Keys == s.accounts.Keys
    && k.load == (if k.ticks % 100 == 0 then 16110 * s.load / F + 273 * (ready + if s.current != s.idle then 1 else 0)
                  else s.load)
    && forall t | t in s.accounts :: Accounted(s, k, t)
  }

  /** Thread t's share of it: charged for the tick if it ran, decayed when a second is over, and
      priced by the result. */
  ghost predicate Accounted(s: Ledger, k: Ledger, t: nat)
    requires t in s.accounts && t in k.accounts
  {
    && k.accounts[t].nice == s.accounts[t].nice
    && (if k.ticks % 100 == 0 then DecayOf(k.load, WithTick(s, t), s.accounts[t].nice, k.accounts[t].recent)
        else k.accounts[t].recent == WithTick(s, t))
    && (if k.ticks % 4 == 0 && t != s.idle
        then PriceOf(k.accounts[t].recent, s.accounts[t].nice, k.accounts[t].priority)
        else k.accounts[t].priority == s.accounts[t].priority)
  }

  lemma AdvancesMeans(s: Ledger, k: Ledger, ready: nat)
    requires Advances(s, k, ready)
    ensures k.accounts.Keys == s.accounts.Keys
    ensures k.load ==
              if k.ticks % 100 == 0 then 16110 * s.load / F + 273 * (ready + if s.current != s.idle then 1 else 0)
              else s.load
    ensures forall t | t in k.accounts :: t in s.accounts && Accounted(s, k, t)
  {
    hide Accounted;
  }

  lemma ChargedRecent(s: Ledger, n: nat, t: nat)
    requires n <= MAX_THREADS && Within(s, n, s.ticks % TIMER_FREQ) && t in s.accounts
    ensures var c := Charged(s); t in c.accounts && c.accounts[t] == s.accounts[t].(recent := WithTick(s, t))
  {
    hide Within, AccountOk;
    ChargedWithin(s, n);
  }

  lemma SecondRecent(c: Ledger, n: nat, ready: nat, t: nat)
    requires n <= MAX_THREADS && Within(c, n, TIMER_FREQ) && Running(c, ready) <= n && t in c.accounts
    ensures var load := NewLoad(c.load, Running(c, ready)); Int32(Int32(2 * load) + ToFp(1)) > 0
    ensures Second(c, ready).load == 16110 * c.load / F + 273 * (ready + if c.current != c.idle then 1 else 0)
    ensures t in Second(c, ready).accounts
    ensures var d := Second(c, ready);
            && d.accounts[t] == c.accounts[t].(recent := d.accounts[t].recent)
            && DecayOf(d.load, c.accounts[t].recent, c.accounts[t].nice, d.accounts[t].recent)
  {
    hide NewLoad, Int32, ToFp, RecentOk, Decayed, DecayOf;
    var load := NewLoad(c.load, Running(c, ready));
    LoadStays(c.load, n, Running(c, ready));
    assert AccountOk(c.accounts[t], n, TIMER_FREQ);
    DecayedIsDecay(load, c.accounts[t].recent, c.accounts[t].nice, n);
  }

  lemma RepricedPriority(d: Ledger, t: nat)
    requires t in d.accounts
    ensures t in Repriced(d).accounts
    ensures var a, b := d.accounts[t], Repriced(d).accounts[t];
            b == a.(priority := b.priority) && if t == d.idle then b == a else PriceOf(a.recent, a.nice, b.priority)
  {
    hide PriorityFor, PriceOf;
    PriorityIsPrice(d.accounts[t].recent, d.accounts[t].nice);
  }

  lemma TickedAdvances(s: Ledger, n: nat, ready: nat)
    requires n <= MAX_THREADS && Within(s, n, s.ticks % TIMER_FREQ) && Running(s, ready) <= n
    ensures var load := NewLoad(s.load, Running(s, ready)); Int32(Int32(2 * load) + ToFp(1)) > 0
    ensures Advances(s, Ticked(s, ready), ready)
  {
    hide Within, NewLoad, Int32, ToFp, DecayOf, PriceOf, Decayed, PriorityFor;
    InRange(s, n, s.ticks % TIMER_FREQ, ready);
    ChargedWithin(s, n);
    var c := Charged(s);
    if c.ticks % TIMER_FREQ == 0 {
      SecondRecent(c, n, ready, s.current);
    }
    var k := Ticked(s, ready);
    assert k.accounts.Keys == s.accounts.Keys;
    forall t | t in s.accounts ensures Accounted(s, k, t) {
      ChargedRecent(s, n, t);
      if c.ticks % TIMER_FREQ == 0 {
        SecondRecent(c, n, ready, t);
        RepricedPriority(Second(c, ready), t);
      } else {
        RepricedPriority(c, t);
      }
    }
  }

  datatype Event =
    | Tick(ready: nat)
    | Switch(thread: nat)
    | Create(thread: nat, priority: int)
    | Exit(thread: nat)
    | SetNice(nice: int)

  /** At most n threads are ready or running, and nice stays in [-20, 20]. */
  ghost predicate Possible(s: Ledger, e: Event, n: nat) {
    s.current in s.accounts &&
    match e
    case Tick(ready) => Running(s, ready) <= n
    case Switch(t) => t in s.accounts
    case Create(t, p) => t !in s.accounts && 0 <= p <= PRI_MAX
    case Exit(t) => t != s.current
    case SetNice(nice) => -20 <= nice <= 20
  }

  ghost function After(s: Ledger, e: Event, n: nat): Ledger
    requires Possible(s, e, n)
  {
    match e
    case Tick(ready) =>
      var load := NewLoad(s.load, Running(s, ready));
      if Int32(Int32(2 * load) + ToFp(1)) > 0 then Ticked(s, ready) else s
    case Switch(t) => s.(current := t)
    case Create(t, p) => s.(accounts := s.accounts[t := Account(0, 0, p)])
    case Exit(t) => s.(accounts := s.accounts - {t})
    case SetNice(nice) =>
      var a := s.accounts[s.current];
      s.(accounts := s.accounts[s.current :=
        a.(nice := nice, priority := if s.current == s.idle then a.priority else PriorityFor(a.recent, nice))])
  }

  lemma AfterWithin(s: Ledger, e: Event, n: nat)
    requires n <= MAX_THREADS && Within(s, n, s.ticks % TIMER_FREQ) && Possible(s, e, n)
    ensures var k := After(s, e, n); Within(k, n, k.ticks % TIMER_FREQ)
  {
    var p := s.ticks % TIMER_FREQ;
    if e.Tick? {
      TickedWithin(s, n, e.ready);
    } else {
      var k := After(s, e, n);
      forall t | t in k.accounts ensures AccountOk(k.accounts[t], n, p) {
        assert t in s.accounts ==> AccountOk(s.accounts[t], n, p);
      }
    }
  }

  ghost predicate Run(states: seq<Ledger>, events: seq<Event>, n: nat) {
    |states| == |events| + 1
    && forall k | 0 <= k < |events| ::
        Possible(states[k], events[k], n) && states[k + 1] == After(states[k], events[k], n)
  }

  /** Boot: no load, and one thread that has not run. */
  ghost predicate Booted(s: Ledger) {
    s.load == 0 && s.ticks == 0 && s.current in s.accounts
    && forall t | t in s.accounts ::
        s.accounts[t].recent == 0 && s.accounts[t].nice == 0 && 0 <= s.accounts[t].priority <= PRI_MAX
  }

  lemma {:induction false} RunWithin(states: seq<Ledger>, events: seq<Event>, n: nat, k: nat)
    requires n <= MAX_THREADS && Run(states, events, n) && Booted(states[0]) && k < |states|
    ensures Within(states[k], n, states[k].ticks % TIMER_FREQ)
  {
    hide Possible, After;
    if k == 0 {
      forall t | t in states[0].accounts ensures AccountOk(states[0].accounts[t], n, 0) {}
    } else {
      RunWithin(states, events, n, k - 1);
      AfterWithin(states[k - 1], events[k - 1], n);
    }
  }

  /** At every point of every run the values are what they would be without 32-bit wrapping,
      and the priorities are priorities. */
  lemma EveryRun(states: seq<Ledger>, events: seq<Event>, n: nat, k: nat, t: nat)
    requires n <= MAX_THREADS && Run(states, events, n) && Booted(states[0]) && k < |states| && t in states[k].accounts
    ensures 0 <= states[k].load <= n * F < 0x8000_0000
    ensures -20 * (2 * n + 1) * F <= states[k].accounts[t].recent <= 120 * (2 * n + 1) * F < 0x8000_0000
    ensures 0 <= states[k].accounts[t].priority <= PRI_MAX
  {
    hide Run, Booted;
    RunWithin(states, events, n, k);
    assert AccountOk(states[k].accounts[t], n, states[k].ticks % TIMER_FREQ);
    RecentFits(states[k].accounts[t].recent, n, states[k].ticks % TIMER_FREQ);
  }

  /** Every tick of every run does to the fields what the recurrences say, in exact integers. */
  lemma EveryTick(states: seq<Ledger>, events: seq<Event>, n: nat, k: nat)
    requires n <= MAX_THREADS && Run(states, events, n) && Booted(states[0]) && k < |events| && events[k].Tick?
    ensures Advances(states[k], states[k + 1], events[k].ready)
  {
    hide Booted, Advances, Ticked, Within;
    RunWithin(states, events, n, k);
    assert Possible(states[k], events[k], n);
    TickedAdvances(states[k], n, events[k].ready);
  }

  /** What the other events do to the fields: whose account comes, goes or changes, and that no other
      does; a new nice value reprices the thread at once, unless it is idle. */
  ghost predicate Changes(s: Ledger, e: Event, k: Ledger) {
    && k.load == s.load && k.ticks == s.ticks && k.idle == s.idle
    && k.current == (if e.Switch? then e.thread else s.current)
    && (forall t | t in s.accounts && t in k.accounts && !(e.SetNice? && t == s.current) ::
          k.accounts[t] == s.accounts[t])
    && match e
       case Tick(_) => false
       case Switch(_) => k.accounts.Keys == s.accounts.Keys
       case Create(t, p) => k.accounts.Keys == s.accounts.Keys + {t} && k.accounts[t] == Account(0, 0, p)
       case Exit(t) => k.accounts.Keys == s.accounts.Keys - {t}
       case SetNice(nice) =>
         && k.accounts.Keys == s.accounts.Keys && s.current in s.accounts
         && var a, b := s.accounts[s.current], k.accounts[s.current];
            b.nice == nice && b.recent == a.recent
            && if s.current == s.idle then b.priority == a.priority else PriceOf(a.recent, nice, b.priority)
  }

  /** So each event of a run is told on the fields. */
  lemma EveryEvent(states: seq<Ledger>, events: seq<Event>, n: nat, k: nat)
    requires n <= MAX_THREADS && Run(states, events, n) && Booted(states[0]) && k < |events|
    ensures if events[k].Tick? then Advances(states[k], states[k + 1], events[k].ready)
            else Changes(states[k], events[k], states[k + 1])
  {
    hide Booted, Advances, PriceOf, PriorityFor, Ticked;
    var s := states[k];
    if events[k].Tick? {
      EveryTick(states, events, n, k);
    } else if events[k].SetNice? && s.current in s.accounts {
      PriorityIsPrice(s.accounts[s.current].recent, events[k].nice);
    }
  }

  /** The accounting as the source keeps it: fields, and loops over the list of all threads. */
  class Accounting {
    var load: int
    var all: seq<nat>
    var accounts: map<nat, Account>
    var ticks: nat
    var current: nat
    const idle: nat

    ghost function State(): Ledger
      reads this
    {
      Ledger(load, accounts, ticks, current, idle)
    }

    ghost predicate Listed()
      reads this
    {
      (forall i, j | 0 <= i < j < |all| :: all[i] != all[j]) && forall t :: t in accounts <==> t in all
    }

    constructor (initial: nat, idleThread: nat, priority: int)
      requires 0 <= priority <= PRI_MAX && initial != idleThread
      ensures Listed() && Booted(State()) && current == initial && idle == idleThread
      ensures accounts == map[initial := Account(0, 0, priority), idleThread := Account(0, 0, 0)]
    {
      load, ticks, current, idle := 0, 0, initial, idleThread;
      all := [initial, idleThread];
      accounts := map[initial := Account(0, 0, priority), idleThread := Account(0, 0, 0)];
    }

    /** thread_foreach (update_recent_cpu). */
    method UpdateRecentCpu()
      requires Listed() && Int32(Int32(2 * load) + ToFp(1)) > 0
      modifies `accounts
      ensures Listed()
      ensures accounts == DecayAll(load, old(accounts))
    {
      hide Decayed, Int32, ToFp;
      ghost var b := accounts;
      var i := 0;
      while i < |all|
        invariant i <= |all| && accounts.Keys == b.Keys
        invariant forall k | 0 <= k < i ::
                  accounts[all[k]] == b[all[k]].(recent := Decayed(load, b[all[k]].recent, b[all[k]].nice))
        invariant forall k | i <= k < |all| :: accounts[all[k]] == b[all[k]]
      {
        var t := all[i];
        var a := accounts[t];
        accounts := accounts[t := a.(recent := Decayed(load, a.recent, a.nice))];
        i := i + 1;
      }
    }

    /** thread_foreach (thread_update_mlfqs_priority). */
    method UpdatePriorities()
      requires Listed()
      modifies `accounts
      ensures Listed() && accounts == PriceAll(idle, old(accounts))
    {
      hide PriorityFor;
      ghost var b := accounts;
      var i := 0;
      while i < |all|
        invariant i <= |all| && accounts.Keys == b.Keys
        invariant forall k | 0 <= k < i ::
          accounts[all[k]] == if all[k] == idle then b[all[k]]
              else b[all[k]].(priority := PriorityFor(b[all[k]].recent, b[all[k]].nice))
        invariant forall k | i <= k < |all| :: accounts[all[k]] == b[all[k]]
      {
        var t := all[i];
        if t != idle {
          var a := accounts[t];
          accounts := accounts[t := a.(priority := PriorityFor(a.recent, a.nice))];
        }
        i := i + 1;
      }
    }

    /** The start of thread_tick: the tick is counted and charged. */
    method Charge()
      requires Listed() && current in accounts
      modifies `accounts, `ticks
      ensures Listed() && State() == Charged(old(State()))
    {
      hide Int32, ToFp;
      var a := accounts[current];
      accounts := accounts[current := a.(recent := Int32(a.recent + ToFp(1)))];
      ticks := ticks + 1;
    }

    /** thread_tick, with `ready` threads on the ready list. */
    method Tick(ready: nat, ghost n: nat)
      requires Listed() && n <= MAX_THREADS && Within(State(), n, ticks % TIMER_FREQ) && Running(State(), ready) <= n
      modifies `load, `accounts, `ticks
      ensures Listed() && Within(State(), n, ticks % TIMER_FREQ) && ticks == old(ticks) + 1
      ensures var l := NewLoad(old(load), Running(old(State()), ready)); Int32(Int32(2 * l) + ToFp(1)) > 0
      ensures State() == Ticked(old(State()), ready) && accounts.Keys == old(accounts).Keys
      ensures load == if ticks % 100 == 0 then 16110 * old(load) / F + 273 * (ready + if current != idle then 1 else 0)
                      else old(load)
      ensures forall t | t in accounts :: t in old(accounts) && Accounted(old(State()), State(), t)
    {
      hide NewLoad, DecayAll, PriceAll, Int32, ToFp, Within, Accounted, Advances, Charged;
      ghost var s := State();
      InRange(State(), n, ticks % TIMER_FREQ, ready);
      TickedWithin(State(), n, ready);
      TickedAdvances(State(), n, ready);
      Charge();
      ghost var c := Charged(s);
      ChargedRest(s);
      ghost var d := if c.ticks % TIMER_FREQ == 0 then Second(c, ready) else c;
      if ticks % TIMER_FREQ == 0 {
        load := NewLoad(load, ready + if current != idle then 1 else 0);
        UpdateRecentCpu();
      }
      assert State() == d;
      if ticks % 4 == 0 {
        UpdatePriorities();
      }
      assert State() == Ticked(s, ready);
      AdvancesMeans(s, State(), ready);
    }
  }
}
