/**
 Threads, real mutexes and the callbacks around them, interleaved in every possible way. The lock and
 try-lock callbacks run before the call and again after it returns, whatever it returned; the unlock
 callback runs before the call. Each callback is one atomic step that appends to the log. Inside a
 call a thread may be seen writing, waiting or waking others, as anywhere else.
 */
module MutexRuns {
  import opened Trace
  import opened Replay
  import opened LockFacts

  /** Where a thread is: in its own code, or inside a call of lock, try-lock or unlock. */
  datatype Phase =
    | Outside
    | Waiting(m: Addr)     // request logged, mutex not yet obtained
    | Obtained(m: Addr)    // mutex obtained, call not yet returned, so not yet logged
    | Trying(m: Addr)      // try logged, outcome not yet decided
    | TryTook(m: Addr)     // mutex obtained, call not yet returned
    | TryMissed(m: Addr)   // mutex found taken, call not yet returned
    | Releasing(m: Addr)   // unlock logged, mutex not yet given up

  datatype System = System(owner: map<Addr, Tid>, phase: map<Tid, Phase>, log: seq<Event>)

  const START := System(map[], map[], [])

  datatype Action =
    | CallLock(t: Tid, m: Addr)
    | Obtain(t: Tid, m: Addr)
    | ReturnFromLock(t: Tid, m: Addr)
    | CallTry(t: Tid, m: Addr)
    | TakeOnTry(t: Tid, m: Addr)
    | MissOnTry(t: Tid, m: Addr)
    | ReturnFromTry(t: Tid, m: Addr)
    | CallUnlock(t: Tid, m: Addr)
    | GiveUp(t: Tid, m: Addr)
    | Does(e: Event)

  function PhaseOf(s: System, t: Tid): Phase {
    if t in s.phase then s.phase[t] else Outside
  }

  predicate Owns(s: System, t: Tid, m: Addr) {
    m in s.owner && s.owner[m] == t
  }

  /**
   Any other callback: no mutex call and no condition wait, and no semaphore or rw-lock that lives
   at a mutex's address.
   */
  predicate NoMutexCall(e: Event, mutexes: set<Addr>) {
    match e
    case Requests(_, kind, a) => kind != Mutex && a !in mutexes
    case Acquires(_, kind, a) => kind != Mutex && a !in mutexes
    case Unlocks(_, kind, a) => kind != Mutex && a !in mutexes
    case Tries(_, _) => false
    case Waits(_, _, _) => false
    case _ => true
  }

  predicate Enabled(s: System, a: Action, mutexes: set<Addr>) {
    match a
    case CallLock(t, m) => m in mutexes && PhaseOf(s, t) == Outside
    case Obtain(t, m) => PhaseOf(s, t) == Waiting(m) && m !in s.owner
    case ReturnFromLock(t, m) => PhaseOf(s, t) == Obtained(m)
    case CallTry(t, m) => m in mutexes && PhaseOf(s, t) == Outside
    case TakeOnTry(t, m) => PhaseOf(s, t) == Trying(m) && m !in s.owner
    case MissOnTry(t, m) => PhaseOf(s, t) == Trying(m) && m in s.owner
    case ReturnFromTry(t, m) => PhaseOf(s, t) == TryTook(m) || PhaseOf(s, t) == TryMissed(m)
    case CallUnlock(t, m) => PhaseOf(s, t) == Outside && Owns(s, t, m)
    case GiveUp(t, m) => PhaseOf(s, t) == Releasing(m)
    case Does(e) => (PhaseOf(s, e.tid) == Outside || e.Writes? || e.Other?) && NoMutexCall(e, mutexes)
  }

  function Next(s: System, a: Action): System {
    match a
    case CallLock(t, m) => s.(phase := s.phase[t := Waiting(m)], log := s.log + [Requests(t, Mutex, m)])
    case Obtain(t, m) => s.(phase := s.phase[t := Obtained(m)], owner := s.owner[m := t])
    case ReturnFromLock(t, m) => s.(phase := s.phase[t := Outside], log := s.log + [Acquires(t, Mutex, m)])
    case CallTry(t, m) => s.(phase := s.phase[t := Trying(m)], log := s.log + [Tries(t, m)])
    case TakeOnTry(t, m) => s.(phase := s.phase[t := TryTook(m)], owner := s.owner[m := t])
    case MissOnTry(t, m) => s.(phase := s.phase[t := TryMissed(m)])
    case ReturnFromTry(t, m) => s.(phase := s.phase[t := Outside], log := s.log + [Acquires(t, Mutex, m)])
    case CallUnlock(t, m) => s.(phase := s.phase[t := Releasing(m)], log := s.log + [Unlocks(t, Mutex, m)])
    case GiveUp(t, m) => s.(phase := s.phase[t := Outside], owner := s.owner - {m})
    case Does(e) => s.(log := s.log + [e])
  }

  function Reached(acts: seq<Action>): System {
    if acts == [] then START else Next(Reached(acts[..|acts| - 1]), acts[|acts| - 1])
  }

  ghost predicate Legal(acts: seq<Action>, mutexes: set<Addr>) {
    acts != [] ==>
      Legal(acts[..|acts| - 1], mutexes) && Enabled(Reached(acts[..|acts| - 1]), acts[|acts| - 1], mutexes)
  }

  // ---------- Returns of failed tries ----------

  /** A try returns to a thread that does not own the mutex: what the callback logs as an acquisition is none. */
  predicate StrayReturn(s: System, a: Action, m: Addr) {
    a.ReturnFromTry? && a.m == m && PhaseOf(s, a.t) == TryMissed(m) && !Owns(s, a.t, m)
  }

  function StraysNext(s: System, strays: set<(Tid, Addr)>, a: Action): set<(Tid, Addr)> {
    match a
    case ReturnFromTry(t, m) => if StrayReturn(s, a, m) then strays + {(t, m)} else strays
    case CallUnlock(t, m) => strays - {(t, m)}
    case _ => strays
  }

  /** The stray returns of a run that no unlock by the same thread has followed. */
  function Strays(acts: seq<Action>): set<(Tid, Addr)> {
    if acts == [] then {}
    else StraysNext(Reached(acts[..|acts| - 1]), Strays(acts[..|acts| - 1]), acts[|acts| - 1])
  }

  /** No try of m by a thread that does not own it has returned without it. */
  ghost predicate NoStrayReturn(acts: seq<Action>, m: Addr) {
    forall i :: 0 <= i < |acts| ==> !StrayReturn(Reached(acts[..i]), acts[i], m)
  }

  // ---------- The invariant ----------

  /** Thread t really owns m, and has returned from the call that took it and not called unlock. */
  predicate FirmlyHolds(s: System, t: Tid, m: Addr) {
    Owns(s, t, m) && PhaseOf(s, t) !in {Obtained(m), TryTook(m), Releasing(m)}
  }

  /** The thread is inside a lock or try-lock call for m. */
  predicate Pending(s: System, t: Tid, m: Addr) {
    PhaseOf(s, t) in {Waiting(m), Obtained(m), Trying(m), TryTook(m), TryMissed(m)}
  }

  ghost predicate At(locks: LockTable, m: Addr, i: nat, t: Tid, flag: int) {
    Holds(locks, m, i) && locks[m][i].tid == t && locks[m][i].flag == flag
  }

  ghost predicate HasRecord(locks: LockTable, m: Addr, t: Tid, flag: int) {
    exists i: nat :: At(locks, m, i, t, flag)
  }

  ghost predicate RecordedHolder(locks: LockTable, m: Addr, t: Tid) {
    HasRecord(locks, m, t, HELD)
  }

  predicate PhaseRight(s: System, t: Tid, mutexes: set<Addr>) {
    match PhaseOf(s, t)
    case Outside => true
    case Waiting(m) => m in mutexes
    case Trying(m) => m in mutexes
    case TryMissed(m) => m in mutexes
    case Obtained(m) => Owns(s, t, m)
    case TryTook(m) => Owns(s, t, m)
    case Releasing(m) => Owns(s, t, m)
  }

  ghost predicate Owned(s: System, mutexes: set<Addr>) {
    (forall m :: m in s.owner ==> m in mutexes) && forall t :: PhaseRight(s, t, mutexes)
  }

  /** Records of one mutex agree with what one thread is really doing, but for its stray returns. */
  ghost predicate FaithfulTo(s: System, strays: set<(Tid, Addr)>, locks: LockTable, m: Addr, t: Tid) {
    && (HasRecord(locks, m, t, HELD) <==> FirmlyHolds(s, t, m) || (t, m) in strays)
    && (HasRecord(locks, m, t, REQUESTED) <==> Pending(s, t, m))
  }

  ghost predicate Faithful(s: System, strays: set<(Tid, Addr)>, locks: LockTable, m: Addr) {
    forall t :: FaithfulTo(s, strays, locks, m, t)
  }

  ghost predicate Inv(s: System, strays: set<(Tid, Addr)>, mutexes: set<Addr>) {
    && Owned(s, mutexes)
    && WellFiled(Run(s.log).locks)
    && forall m :: m in mutexes ==> Faithful(s, strays, Run(s.log).locks, m)
  }

  lemma OwnedStep(s: System, a: Action, mutexes: set<Addr>)
    requires Owned(s, mutexes) && Enabled(s, a, mutexes)
    ensures Owned(Next(s, a), mutexes)
  {
    if !a.Does? {
      assert PhaseRight(s, a.t, mutexes);
    }
    forall t
      ensures PhaseRight(Next(s, a), t, mutexes)
    {
      assert PhaseRight(s, t, mutexes);
    }
  }

  // ---------- What each kind of table change does to the records of one thread ----------

  lemma PushHas(locks: LockTable, m: Addr, r: LockRec, x: Addr, t: Tid, f: int)
    ensures HasRecord(Push(locks, m, r), x, t, f) <==>
            HasRecord(locks, x, t, f) || (x == m && t == r.tid && f == r.flag)
  {
    var now := Push(locks, m, r);
    if i: nat :| At(locks, x, i, t, f) {
      assert At(now, x, i, t, f);
    }
    if x == m && t == r.tid && f == r.flag {
      assert At(now, x, |Get(locks, m)|, t, f);
    }
    if i: nat :| At(now, x, i, t, f) {
      assert At(locks, x, i, t, f) || (x == m && i == |Get(locks, m)|);
    }
  }

  lemma MoveAt(locks: LockTable, t0: Tid, a: Addr, from: int, to: int, x: Addr, i: nat, t: Tid, f: int)
    requires WellFiled(locks) && from != to
    ensures At(MoveFlags(locks, t0, a, from, to), x, i, t, f) <==>
            if x != a || t != t0 then At(locks, x, i, t, f)
            else if f == to then At(locks, x, i, t, to) || At(locks, x, i, t, from)
            else f != from && At(locks, x, i, t, f)
  {
    if Holds(locks, x, i) {
      assert locks[x][i].addr == x;
      assert MoveFlags(locks, t0, a, from, to)[x][i] == MoveFlag(locks[x][i], t0, a, from, to);
    }
  }

  lemma MoveHas(locks: LockTable, t0: Tid, a: Addr, from: int, to: int, x: Addr, t: Tid, f: int)
    requires WellFiled(locks) && from != to
    ensures HasRecord(MoveFlags(locks, t0, a, from, to), x, t, f) <==>
            if x != a || t != t0 then HasRecord(locks, x, t, f)
            else if f == to then HasRecord(locks, x, t, to) || HasRecord(locks, x, t, from)
            else f != from && HasRecord(locks, x, t, f)
  {
    forall i: nat
      ensures At(MoveFlags(locks, t0, a, from, to), x, i, t, f) <==>
              if x != a || t != t0 then At(locks, x, i, t, f)
              else if f == to then At(locks, x, i, t, to) || At(locks, x, i, t, from)
              else f != from && At(locks, x, i, t, f)
    {
      MoveAt(locks, t0, a, from, to, x, i, t, f);
    }
  }

  // ---------- Every action keeps the records of every mutex faithful ----------

  /** The event an action logs, if any. */
  function Logged(a: Action): seq<Event> {
    match a
    case CallLock(t, m) => [Requests(t, Mutex, m)]
    case ReturnFromLock(t, m) => [Acquires(t, Mutex, m)]
    case CallTry(t, m) => [Tries(t, m)]
    case ReturnFromTry(t, m) => [Acquires(t, Mutex, m)]
    case CallUnlock(t, m) => [Unlocks(t, Mutex, m)]
    case Does(e) => [e]
    case _ => []
  }

  lemma LogGrows(s: System, a: Action)
    ensures Next(s, a).log == s.log + Logged(a)
    ensures |Logged(a)| <= 1
  {
  }

  function StepLogged(tb: Tables, a: Action): Tables {
    if Logged(a) == [] then tb else Step(tb, Logged(a)[0])
  }

  lemma RunNext(s: System, a: Action)
    ensures Run(Next(s, a).log) == StepLogged(Run(s.log), a)
  {
    if Logged(a) == [] {
    } else {
      assert Next(s, a).log == s.log + [Logged(a)[0]];
      assert Earlier(Next(s, a).log) == s.log;
    }
  }

  /** An event that is no mutex call leaves the records of a mutex flagged 1 and 2 alone. */
  lemma OtherRecords(tb: Tables, e: Event, mutexes: set<Addr>, x: Addr, t: Tid, f: int)
    requires WellFiled(tb.locks) && x in mutexes && NoMutexCall(e, mutexes) && f in {HELD, REQUESTED}
    ensures HasRecord(Step(tb, e).locks, x, t, f) <==> HasRecord(tb.locks, x, t, f)
  {
    match e {
      case PassesBarrier(u, b) => PushHas(tb.locks, b, LockRec(u, BARRIER_PASSED, b), x, t, f);
      case Requests(u, _, a) => PushHas(tb.locks, a, LockRec(u, REQUESTED, a), x, t, f);
      case Acquires(u, kind, a) => MoveHas(tb.locks, u, a, REQUESTED, HeldFlag(kind), x, t, f);
      case Unlocks(u, kind, a) => MoveHas(tb.locks, u, a, HELD, RELEASED, x, t, f);
      case _ =>
    }
  }

  predicate Returns(a: Action) {
    a.ReturnFromLock? || a.ReturnFromTry?
  }

  predicate Mine(a: Action, t: Tid, m: Addr) {
    !a.Does? && a.t == t && a.m == m
  }

  /** The lock table after an action, without the other tables. */
  lemma LocksLogged(tb: Tables, a: Action)
    ensures StepLogged(tb, a).locks ==
      match a
      case CallLock(t, m) => Push(tb.locks, m, LockRec(t, REQUESTED, m))
      case CallTry(t, m) => Push(tb.locks, m, LockRec(t, REQUESTED, m))
      case ReturnFromLock(t, m) => MoveFlags(tb.locks, t, m, REQUESTED, HELD)
      case ReturnFromTry(t, m) => MoveFlags(tb.locks, t, m, REQUESTED, HELD)
      case CallUnlock(t, m) => MoveFlags(tb.locks, t, m, HELD, RELEASED)
      case Does(e) => Step(tb, e).locks
      case _ => tb.locks
  {
  }

  /** What an action does to the records of t for x flagged 1 or 2. */
  lemma RecordsStep(tb: Tables, a: Action, mutexes: set<Addr>, x: Addr, t: Tid, f: int)
    requires WellFiled(tb.locks) && x in mutexes && (a.Does? ==> NoMutexCall(a.e, mutexes)) && f in {HELD, REQUESTED}
    ensures var was, now := tb.locks, StepLogged(tb, a).locks;
      HasRecord(now, x, t, f) <==>
        if !Mine(a, t, x) then HasRecord(was, x, t, f)
        else if a.CallLock? || a.CallTry? then f == REQUESTED || HasRecord(was, x, t, f)
        else if Returns(a) then f == HELD && (HasRecord(was, x, t, HELD) || HasRecord(was, x, t, REQUESTED))
        else if a.CallUnlock? then f == REQUESTED && HasRecord(was, x, t, f)
        else HasRecord(was, x, t, f)
  {
    LocksLogged(tb, a);
    match a {
      case CallLock(u, m) => PushHas(tb.locks, m, LockRec(u, REQUESTED, m), x, t, f);
      case CallTry(u, m) => PushHas(tb.locks, m, LockRec(u, REQUESTED, m), x, t, f);
      case ReturnFromLock(u, m) => MoveHas(tb.locks, u, m, REQUESTED, HELD, x, t, f);
      case ReturnFromTry(u, m) => MoveHas(tb.locks, u, m, REQUESTED, HELD, x, t, f);
      case CallUnlock(u, m) => MoveHas(tb.locks, u, m, HELD, RELEASED, x, t, f);
      case Does(e) => OtherRecords(tb, e, mutexes, x, t, f);
      case _ =>
    }
  }

  /** What an action does to a thread's hold of x and to its calls for x. */
  lemma HoldsStep(s: System, a: Action, mutexes: set<Addr>, x: Addr, t: Tid)
    requires Owned(s, mutexes) && Enabled(s, a, mutexes)
    ensures var now, mine := Next(s, a), Mine(a, t, x);
      && (FirmlyHolds(now, t, x) <==>
            if mine && Returns(a) then Owns(s, t, x) else FirmlyHolds(s, t, x) && !(mine && a.CallUnlock?))
      && (Pending(now, t, x) <==>
            if mine && (a.CallLock? || a.CallTry?) then true else Pending(s, t, x) && !(mine && Returns(a)))
      && (mine && Returns(a) ==> Pending(s, t, x) && !(FirmlyHolds(s, t, x) && PhaseOf(s, t) != TryMissed(x)))
  {
    assert PhaseRight(s, t, mutexes);
    if a.Does? {
    } else if a.t == t {
      assert PhaseOf(Next(s, a), t) == Next(s, a).phase[t];
    } else {
      assert PhaseRight(s, a.t, mutexes);
      assert PhaseOf(Next(s, a), t) == PhaseOf(s, t);
    }
  }

  /** Strays change only by a stray return and by an unlock. */
  lemma StraysStep(s: System, strays: set<(Tid, Addr)>, a: Action, mutexes: set<Addr>, x: Addr, t: Tid)
    requires Owned(s, mutexes) && Enabled(s, a, mutexes)
    ensures var mine := Mine(a, t, x);
      (t, x) in StraysNext(s, strays, a) <==>
        if mine && Returns(a) then (t, x) in strays || !Owns(s, t, x)
        else (t, x) in strays && !(mine && a.CallUnlock?)
  {
    assert PhaseRight(s, t, mutexes);
  }

  lemma FaithfulStep(s: System, strays: set<(Tid, Addr)>, tb: Tables, a: Action, mutexes: set<Addr>, x: Addr, t: Tid)
    requires Owned(s, mutexes) && WellFiled(tb.locks) && FaithfulTo(s, strays, tb.locks, x, t)
    requires Enabled(s, a, mutexes) && x in mutexes
    ensures FaithfulTo(Next(s, a), StraysNext(s, strays, a), StepLogged(tb, a).locks, x, t)
  {
    var now := Next(s, a);
    var strays' := StraysNext(s, strays, a);
    var locks' := StepLogged(tb, a).locks;
    assert HasRecord(locks', x, t, HELD) <==> FirmlyHolds(now, t, x) || (t, x) in strays' by {
      RecordsStep(tb, a, mutexes, x, t, HELD);
      HoldsStep(s, a, mutexes, x, t);
      StraysStep(s, strays, a, mutexes, x, t);
    }
    assert HasRecord(locks', x, t, REQUESTED) <==> Pending(now, t, x) by {
      RecordsStep(tb, a, mutexes, x, t, REQUESTED);
      HoldsStep(s, a, mutexes, x, t);
    }
  }

  lemma InvStep(s: System, strays: set<(Tid, Addr)>, a: Action, mutexes: set<Addr>)
    requires Inv(s, strays, mutexes) && Enabled(s, a, mutexes)
    ensures Inv(Next(s, a), StraysNext(s, strays, a), mutexes)
  {
    OwnedStep(s, a, mutexes);
    RunWellFiled(Next(s, a).log);
    RunNext(s, a);
    forall x, t | x in mutexes
      ensures FaithfulTo(Next(s, a), StraysNext(s, strays, a), Run(Next(s, a).log).locks, x, t)
    {
      assert Faithful(s, strays, Run(s.log).locks, x);
      FaithfulStep(s, strays, Run(s.log), a, mutexes, x, t);
    }
  }

  lemma {:induction false} InvAlways(acts: seq<Action>, mutexes: set<Addr>)
    requires Legal(acts, mutexes)
    ensures Inv(Reached(acts), Strays(acts), mutexes)
  {
    if acts == [] {
    } else {
      InvAlways(acts[..|acts| - 1], mutexes);
      InvStep(Reached(acts[..|acts| - 1]), Strays(acts[..|acts| - 1]), acts[|acts| - 1], mutexes);
    }
  }

  // ---------- What a recorded hold is worth ----------

  /** The records show a thread as holding a mutex iff it firmly holds it or has a stray return outstanding. */
  lemma RecordedExactly(acts: seq<Action>, mutexes: set<Addr>, m: Addr, t: Tid)
    requires Legal(acts, mutexes) && m in mutexes
    ensures RecordedHolder(Run(Reached(acts).log).locks, m, t) <==>
            FirmlyHolds(Reached(acts), t, m) || (t, m) in Strays(acts)
  {
    InvAlways(acts, mutexes);
    assert Faithful(Reached(acts), Strays(acts), Run(Reached(acts).log).locks, m);
    assert FaithfulTo(Reached(acts), Strays(acts), Run(Reached(acts).log).locks, m, t);
  }

  lemma {:induction false} LegalPrefix(acts: seq<Action>, mutexes: set<Addr>, n: nat)
    requires Legal(acts, mutexes) && n <= |acts|
    ensures Legal(acts[..n], mutexes)
  {
    if n == |acts| {
      assert acts[..n] == acts;
    } else {
      var before := acts[..|acts| - 1];
      LegalPrefix(before, mutexes, n);
      assert before[..n] == acts[..n];
    }
  }

  lemma {:induction false} NoStrays(acts: seq<Action>, m: Addr)
    requires NoStrayReturn(acts, m)
    ensures forall t :: (t, m) !in Strays(acts)
  {
    if acts == [] {
    } else {
      var n := |acts| - 1;
      forall i | 0 <= i < n
        ensures !StrayReturn(Reached(acts[..n][..i]), acts[..n][i], m)
      {
        assert acts[..n][..i] == acts[..i];
      }
      NoStrays(acts[..n], m);
      assert !StrayReturn(Reached(acts[..n]), acts[n], m);
    }
  }

  /** After every step of the run the records of m show exactly the threads that firmly hold it. */
  ghost predicate RecordsReal(acts: seq<Action>, m: Addr) {
    forall n, t :: 0 <= n <= |acts| ==>
      (RecordedHolder(Run(Reached(acts[..n]).log).locks, m, t) <==> FirmlyHolds(Reached(acts[..n]), t, m))
  }

  lemma StrayShows(acts: seq<Action>, mutexes: set<Addr>, m: Addr, i: nat)
    requires Legal(acts, mutexes) && m in mutexes
    requires i < |acts| && StrayReturn(Reached(acts[..i]), acts[i], m)
    ensures !RecordsReal(acts, m)
  {
    var t, upTo := acts[i].t, acts[..i + 1];
    assert upTo[..i] == acts[..i];
    LegalPrefix(acts, mutexes, i + 1);
    RecordedExactly(upTo, mutexes, m, t);
    assert (t, m) in Strays(upTo);
    assert RecordedHolder(Run(Reached(acts[..i + 1]).log).locks, m, t);
  }

  /**
   In every interleaving: the records of a mutex are real in every state iff no try-lock of it has
   returned without it to a thread that did not own it.
   */
  lemma RecordsRealIff(acts: seq<Action>, mutexes: set<Addr>, m: Addr)
    requires Legal(acts, mutexes) && m in mutexes
    ensures RecordsReal(acts, m) <==> NoStrayReturn(acts, m)
  {
    if NoStrayReturn(acts, m) {
      forall n, t | 0 <= n <= |acts|
        ensures RecordedHolder(Run(Reached(acts[..n]).log).locks, m, t) <==> FirmlyHolds(Reached(acts[..n]), t, m)
      {
        LegalPrefix(acts, mutexes, n);
        NoStrayPrefix(acts, m, n);
        NoStrays(acts[..n], m);
        RecordedExactly(acts[..n], mutexes, m, t);
      }
    } else {
      var i :| 0 <= i < |acts| && StrayReturn(Reached(acts[..i]), acts[i], m);
      StrayShows(acts, mutexes, m, i);
    }
  }

  lemma NoStrayPrefix(acts: seq<Action>, m: Addr, n: nat)
    requires NoStrayReturn(acts, m) && n <= |acts|
    ensures NoStrayReturn(acts[..n], m)
  {
    forall i | 0 <= i < n
      ensures !StrayReturn(Reached(acts[..n][..i]), acts[..n][i], m)
    {
      assert acts[..n][..i] == acts[..i];
    }
  }

  // ---------- Exclusion in every state of the replay ----------

  /** Every prefix of the log is the log after some prefix of the run. */
  lemma {:induction false} LogPrefix(acts: seq<Action>, n: nat) returns (k: nat)
    requires n <= |Reached(acts).log|
    ensures k <= |acts| && Reached(acts[..k]).log == Reached(acts).log[..n]
  {
    if n == |Reached(acts).log| {
      k := |acts|;
      assert acts[..k] == acts;
    } else {
      var before := acts[..|acts| - 1];
      LogGrows(Reached(before), acts[|acts| - 1]);
      k := LogPrefix(before, n);
      assert before[..k] == acts[..k];
      assert Reached(acts).log[..n] == Reached(before).log[..n];
    }
  }

  /** Without stray returns at most one thread is recorded as holding m in every state of the replay. */
  lemma RecordedExclusive(acts: seq<Action>, mutexes: set<Addr>, n: nat, m: Addr, t: Tid, u: Tid)
    requires Legal(acts, mutexes) && m in mutexes && NoStrayReturn(acts, m) && n <= |Reached(acts).log|
    requires RecordedHolder(Run(Reached(acts).log[..n]).locks, m, t)
    requires RecordedHolder(Run(Reached(acts).log[..n]).locks, m, u)
    ensures t == u
  {
    var k := LogPrefix(acts, n);
    RecordsRealIff(acts, mutexes, m);
    assert FirmlyHolds(Reached(acts[..k]), t, m) && FirmlyHolds(Reached(acts[..k]), u, m);
  }

  // ---------- One record, when no try misses ----------

  ghost predicate NoMiss(acts: seq<Action>, m: Addr) {
    forall i :: 0 <= i < |acts| && acts[i].MissOnTry? ==> acts[i].m != m
  }

  lemma {:induction false} NoMissPhase(acts: seq<Action>, m: Addr, t: Tid)
    requires NoMiss(acts, m)
    ensures PhaseOf(Reached(acts), t) != TryMissed(m)
  {
    if acts == [] {
    } else {
      NoMissPhase(acts[..|acts| - 1], m, t);
    }
  }

  lemma NoMissNoStray(acts: seq<Action>, m: Addr)
    requires NoMiss(acts, m)
    ensures NoStrayReturn(acts, m)
  {
    forall i | 0 <= i < |acts|
      ensures !StrayReturn(Reached(acts[..i]), acts[i], m)
    {
      if acts[i].ReturnFromTry? {
        NoMissPhase(acts[..i], m, acts[i].t);
      }
    }
  }

  /** Each thread has at most one record of m per flag 1 and 2. */
  ghost predicate Single(locks: LockTable, m: Addr) {
    forall i: nat, j: nat, t, f :: f in {HELD, REQUESTED} && At(locks, m, i, t, f) && At(locks, m, j, t, f) ==> i == j
  }

  lemma PushAt(locks: LockTable, m: Addr, r: LockRec, x: Addr, i: nat, t: Tid, f: int)
    ensures At(Push(locks, m, r), x, i, t, f) <==>
            At(locks, x, i, t, f) || (x == m && i == |Get(locks, m)| && t == r.tid && f == r.flag)
  {
  }

  /** An event that is no mutex call changes no record of a mutex flagged 1 or 2. */
  lemma OtherAt(tb: Tables, e: Event, mutexes: set<Addr>, x: Addr, i: nat, t: Tid, f: int)
    requires WellFiled(tb.locks) && x in mutexes && NoMutexCall(e, mutexes) && f in {HELD, REQUESTED}
    ensures At(Step(tb, e).locks, x, i, t, f) <==> At(tb.locks, x, i, t, f)
  {
    match e {
      case PassesBarrier(u, b) => PushAt(tb.locks, b, LockRec(u, BARRIER_PASSED, b), x, i, t, f);
      case Requests(u, _, a) => PushAt(tb.locks, a, LockRec(u, REQUESTED, a), x, i, t, f);
      case Acquires(u, kind, a) => MoveAt(tb.locks, u, a, REQUESTED, HeldFlag(kind), x, i, t, f);
      case Unlocks(u, kind, a) => MoveAt(tb.locks, u, a, HELD, RELEASED, x, i, t, f);
      case _ =>
    }
  }

  /** A record flagged f now was flagged f before, or is the one the action made or moved. */
  lemma AtOrigin(tb: Tables, a: Action, mutexes: set<Addr>, x: Addr, i: nat, t: Tid, f: int)
    requires WellFiled(tb.locks) && x in mutexes && (a.Does? ==> NoMutexCall(a.e, mutexes))
    requires f in {HELD, REQUESTED} && At(StepLogged(tb, a).locks, x, i, t, f)
    ensures
      || At(tb.locks, x, i, t, f)
      || (Mine(a, t, x) &&
          if f == HELD then Returns(a) && At(tb.locks, x, i, t, REQUESTED)
          else (a.CallLock? || a.CallTry?) && i == |Get(tb.locks, x)|)
  {
    match a {
      case CallLock(u, m) => PushAt(tb.locks, m, LockRec(u, REQUESTED, m), x, i, t, f);
      case CallTry(u, m) => PushAt(tb.locks, m, LockRec(u, REQUESTED, m), x, i, t, f);
      case ReturnFromLock(u, m) => MoveAt(tb.locks, u, m, REQUESTED, HELD, x, i, t, f);
      case ReturnFromTry(u, m) => MoveAt(tb.locks, u, m, REQUESTED, HELD, x, i, t, f);
      case CallUnlock(u, m) => MoveAt(tb.locks, u, m, HELD, RELEASED, x, i, t, f);
      case Does(e) => OtherAt(tb, e, mutexes, x, i, t, f);
      case _ =>
    }
  }

  lemma SingleStep(s: System, strays: set<(Tid, Addr)>, tb: Tables, a: Action, mutexes: set<Addr>, x: Addr)
    requires Owned(s, mutexes) && WellFiled(tb.locks) && Faithful(s, strays, tb.locks, x) && Single(tb.locks, x)
    requires Enabled(s, a, mutexes) && x in mutexes
    requires forall t: Tid :: (t, x) !in strays && PhaseOf(s, t) != TryMissed(x)
    ensures Single(StepLogged(tb, a).locks, x)
  {
    var now := StepLogged(tb, a).locks;
    forall i: nat, j: nat, t, f | f in {HELD, REQUESTED} && At(now, x, i, t, f) && At(now, x, j, t, f)
      ensures i == j
    {
      AtOrigin(tb, a, mutexes, x, i, t, f);
      AtOrigin(tb, a, mutexes, x, j, t, f);
      assert FaithfulTo(s, strays, tb.locks, x, t);
      HoldsStep(s, a, mutexes, x, t);
    }
  }

  lemma {:induction false} SingleAlways(acts: seq<Action>, mutexes: set<Addr>, m: Addr)
    requires Legal(acts, mutexes) && m in mutexes && NoMiss(acts, m)
    ensures Single(Run(Reached(acts).log).locks, m)
  {
    if acts == [] {
    } else {
      var before, a := acts[..|acts| - 1], acts[|acts| - 1];
      var s := Reached(before);
      assert NoMiss(before, m);
      SingleAlways(before, mutexes, m);
      InvAlways(before, mutexes);
      NoMissNoStray(before, m);
      NoStrays(before, m);
      forall t: Tid
        ensures PhaseOf(s, t) != TryMissed(m)
      {
        NoMissPhase(before, m, t);
      }
      SingleStep(s, Strays(before), Run(s.log), a, mutexes, m);
      RunNext(s, a);
    }
  }

  /** If no try of m misses, at most one record of m is flagged as held in every state of the replay. */
  lemma OneRecordedHolder(acts: seq<Action>, mutexes: set<Addr>, n: nat, m: Addr, i: nat, j: nat, t: Tid, u: Tid)
    requires Legal(acts, mutexes) && m in mutexes && NoMiss(acts, m) && n <= |Reached(acts).log|
    requires At(Run(Reached(acts).log[..n]).locks, m, i, t, HELD)
    requires At(Run(Reached(acts).log[..n]).locks, m, j, u, HELD)
    ensures i == j && t == u
  {
    NoMissNoStray(acts, m);
    RecordedExclusive(acts, mutexes, n, m, t, u);
    var k := LogPrefix(acts, n);
    LegalPrefix(acts, mutexes, k);
    SingleAlways(acts[..k], mutexes, m);
  }

  // ---------- A run with a stray return ----------

  /** Thread t takes m; u tries it, misses, and returns. */
  function MissedTry(t: Tid, u: Tid, m: Addr): seq<Action> {
    [CallLock(t, m), Obtain(t, m), ReturnFromLock(t, m), CallTry(u, m), MissOnTry(u, m), ReturnFromTry(u, m)]
  }

  lemma MissedTryStates(t: Tid, u: Tid, m: Addr)
    requires t != u
    ensures var acts := MissedTry(t, u, m);
      && Legal(acts[..3], {m})
      && Reached(acts[..3]) == System(map[m := t], map[t := Outside], [Requests(t, Mutex, m), Acquires(t, Mutex, m)])
  {
    var acts := MissedTry(t, u, m);
    assert acts[..0] == [];
    TakeOne(acts, 0, {m});
    TakeOne(acts, 1, {m});
    TakeOne(acts, 2, {m});
  }

  lemma TakeOne(acts: seq<Action>, i: nat, mutexes: set<Addr>)
    requires i < |acts|
    ensures Reached(acts[..i + 1]) == Next(Reached(acts[..i]), acts[i])
    ensures Legal(acts[..i + 1], mutexes) <==>
            Legal(acts[..i], mutexes) && Enabled(Reached(acts[..i]), acts[i], mutexes)
  {
    assert acts[..i + 1][..i] == acts[..i];
  }

  lemma MissedTryEnds(t: Tid, u: Tid, m: Addr)
    requires t != u
    ensures var acts := MissedTry(t, u, m);
      && Legal(acts, {m}) && StrayReturn(Reached(acts[..5]), acts[5], m)
      && Reached(acts).owner == map[m := t] && PhaseOf(Reached(acts), t) == PhaseOf(Reached(acts), u) == Outside
  {
    var acts := MissedTry(t, u, m);
    MissedTryStates(t, u, m);
    TakeOne(acts, 3, {m});
    TakeOne(acts, 4, {m});
    TakeOne(acts, 5, {m});
    assert acts[..6] == acts;
  }

  /** In that run both threads end up recorded as holding m, although u does not own it. */
  lemma FailedTryRecorded(t: Tid, u: Tid, m: Addr)
    requires t != u
    ensures var acts := MissedTry(t, u, m);
      && Legal(acts, {m}) && !NoStrayReturn(acts, m)
      && RecordedHolder(Run(Reached(acts).log).locks, m, t)
      && RecordedHolder(Run(Reached(acts).log).locks, m, u) && !Owns(Reached(acts), u, m)
  {
    var acts := MissedTry(t, u, m);
    MissedTryEnds(t, u, m);
    RecordedExactly(acts, {m}, m, t);
    RecordedExactly(acts, {m}, m, u);
    assert (u, m) in StraysNext(Reached(acts[..5]), Strays(acts[..5]), acts[5]);
    assert acts[..|acts| - 1] == acts[..5];
  }

  // ---------- Tries and waits that end well ----------

  /** A try is never stuck: it takes the mutex iff that is free, and else misses. */
  lemma TryDecides(acts: seq<Action>, mutexes: set<Addr>, t: Tid, m: Addr)
    requires Legal(acts, mutexes) && PhaseOf(Reached(acts), t) == Trying(m)
    ensures Legal(acts + [TakeOnTry(t, m)], mutexes) <==> m !in Reached(acts).owner
    ensures Legal(acts + [MissOnTry(t, m)], mutexes) <==> m in Reached(acts).owner
  {
    assert (acts + [TakeOnTry(t, m)])[..|acts|] == acts;
    assert (acts + [MissOnTry(t, m)])[..|acts|] == acts;
  }

  /** Thread t tries m while it is free. */
  function TakenTry(t: Tid, m: Addr): seq<Action> {
    [CallTry(t, m), TakeOnTry(t, m), ReturnFromTry(t, m)]
  }

  /** In that run t ends up holding m, and is recorded as holding it. */
  lemma TakenTryRecorded(t: Tid, m: Addr)
    ensures var acts := TakenTry(t, m);
      && Legal(acts, {m}) && FirmlyHolds(Reached(acts), t, m)
      && RecordedHolder(Run(Reached(acts).log).locks, m, t)
  {
    var acts := TakenTry(t, m);
    assert acts[..0] == [];
    TakeOne(acts, 0, {m});
    TakeOne(acts, 1, {m});
    TakeOne(acts, 2, {m});
    assert acts[..3] == acts;
    RecordedExactly(acts, {m}, m, t);
  }

  /** Thread u asks for m while t holds it, is seen waiting, and gets m once t has given it up. */
  function Handover(t: Tid, u: Tid, m: Addr): seq<Action> {
    [CallLock(t, m), Obtain(t, m), ReturnFromLock(t, m), CallLock(u, m), Does(Other(u)),
     CallUnlock(t, m), GiveUp(t, m), Obtain(u, m), ReturnFromLock(u, m)]
  }

  lemma HandoverWaits(t: Tid, u: Tid, m: Addr)
    requires t != u
    ensures var acts := Handover(t, u, m);
      && Legal(acts[..5], {m}) && FirmlyHolds(Reached(acts[..5]), t, m)
      && Reached(acts[..5]).owner == map[m := t] && Reached(acts[..5]).phase == map[t := Outside, u := Waiting(m)]
  {
    var acts := Handover(t, u, m);
    MissedTryStates(t, u, m);
    assert acts[..3] == MissedTry(t, u, m)[..3];
    TakeOne(acts, 3, {m});
    TakeOne(acts, 4, {m});
  }

  lemma HandoverFrees(t: Tid, u: Tid, m: Addr)
    requires t != u
    ensures var acts := Handover(t, u, m);
      Legal(acts[..7], {m}) && Reached(acts[..7]).owner == map[] && PhaseOf(Reached(acts[..7]), u) == Waiting(m)
  {
    var acts := Handover(t, u, m);
    HandoverWaits(t, u, m);
    TakeOne(acts, 5, {m});
    TakeOne(acts, 6, {m});
    assert Reached(acts[..7]).owner == map[m := t] - {m};
  }

  lemma HandoverEnds(t: Tid, u: Tid, m: Addr)
    requires t != u
    ensures var acts := Handover(t, u, m);
      && Legal(acts, {m}) && Reached(acts).owner == map[m := u] && PhaseOf(Reached(acts), u) == Outside
  {
    var acts := Handover(t, u, m);
    HandoverFrees(t, u, m);
    TakeOne(acts, 7, {m});
    TakeOne(acts, 8, {m});
    assert acts[..9] == acts;
  }

  /** In that run u alone is recorded as holding m in the end. */
  lemma HandoverRecorded(t: Tid, u: Tid, m: Addr)
    requires t != u
    ensures var acts := Handover(t, u, m);
      && Legal(acts, {m}) && FirmlyHolds(Reached(acts), u, m)
      && forall x :: RecordedHolder(Run(Reached(acts).log).locks, m, x) <==> x == u
  {
    var acts := Handover(t, u, m);
    HandoverEnds(t, u, m);
    NoMissNoStray(acts, m);
    NoStrays(acts, m);
    forall x
      ensures RecordedHolder(Run(Reached(acts).log).locks, m, x) <==> x == u
    {
      RecordedExactly(acts, {m}, m, x);
    }
  }
}
