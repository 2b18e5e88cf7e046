/**
 What the safety verdict makes of programs that synchronise with mutexes only. The comment on the
 decider promises 1 for "totally unsafe", 2 for "partially safe" and 3 for "totally safe"; on these
 programs the verdict depends only on which writes are made inside calls of lock and try-lock, not on
 which are made while a mutex is held.
 */
module LockedPrograms {
  import opened Basics
  import opened Trace
  import opened Replay
  import opened LockFacts
  import opened LogFacts
  import opened LabelFacts
  import opened Deciders
  import opened DeciderFacts
  import opened MutexRuns

  predicate NoOtherSync(e: Event) {
    e.Writes? || e.Creates? || e.Signals? || e.Other?
  }

  ghost predicate MutexOnly(acts: seq<Action>) {
    forall i :: 0 <= i < |acts| && acts[i].Does? ==> NoOtherSync(acts[i].e)
  }

  // ---------- The lock table of such a run ----------

  ghost predicate PlainLocks(locks: LockTable, mutexes: set<Addr>) {
    forall k: Addr, i: nat :: Holds(locks, k, i) ==> k in mutexes && locks[k][i].flag in {RELEASED, HELD, REQUESTED}
  }

  lemma PlainPush(locks: LockTable, r: LockRec, mutexes: set<Addr>)
    requires PlainLocks(locks, mutexes) && r.addr in mutexes && r.flag == REQUESTED
    ensures PlainLocks(Push(locks, r.addr, r), mutexes)
  {
    var now := Push(locks, r.addr, r);
    forall k: Addr, i: nat | Holds(now, k, i)
      ensures k in mutexes && now[k][i].flag in {RELEASED, HELD, REQUESTED}
    {
      assert Holds(locks, k, i) || (k == r.addr && i == |Get(locks, k)|);
    }
  }

  lemma PlainMove(locks: LockTable, t: Tid, a: Addr, from: int, to: int, mutexes: set<Addr>)
    requires PlainLocks(locks, mutexes) && to in {RELEASED, HELD}
    ensures PlainLocks(MoveFlags(locks, t, a, from, to), mutexes)
  {
    var now := MoveFlags(locks, t, a, from, to);
    forall k: Addr, i: nat | Holds(now, k, i)
      ensures k in mutexes && now[k][i].flag in {RELEASED, HELD, REQUESTED}
    {
      assert Holds(locks, k, i);
    }
  }

  lemma PlainStep(tb: Tables, a: Action, mutexes: set<Addr>)
    requires PlainLocks(tb.locks, mutexes) && (a.Does? ==> NoOtherSync(a.e))
    requires a.CallLock? || a.CallTry? ==> a.m in mutexes
    ensures PlainLocks(StepLogged(tb, a).locks, mutexes)
  {
    match a {
      case CallLock(t, m) => PlainPush(tb.locks, LockRec(t, REQUESTED, m), mutexes);
      case CallTry(t, m) => PlainPush(tb.locks, LockRec(t, REQUESTED, m), mutexes);
      case ReturnFromLock(t, m) => PlainMove(tb.locks, t, m, REQUESTED, HELD, mutexes);
      case ReturnFromTry(t, m) => PlainMove(tb.locks, t, m, REQUESTED, HELD, mutexes);
      case CallUnlock(t, m) => PlainMove(tb.locks, t, m, HELD, RELEASED, mutexes);
      case _ =>
    }
  }

  lemma {:induction false} PlainAlways(acts: seq<Action>, mutexes: set<Addr>)
    requires Legal(acts, mutexes) && MutexOnly(acts)
    ensures PlainLocks(Run(Reached(acts).log).locks, mutexes)
  {
    if acts == [] {
    } else {
      var before, a := acts[..|acts| - 1], acts[|acts| - 1];
      assert MutexOnly(before);
      PlainAlways(before, mutexes);
      PlainStep(Run(Reached(before).log), a, mutexes);
      RunNext(Reached(before), a);
    }
  }

  lemma {:induction false} NoBarrier(acts: seq<Action>, t: Tid)
    requires MutexOnly(acts)
    ensures !Passes(Reached(acts).log, t)
  {
    if acts == [] {
    } else {
      var before := acts[..|acts| - 1];
      assert MutexOnly(before);
      NoBarrier(before, t);
      var log := Reached(acts).log;
      forall i | 0 <= i < |log|
        ensures !log[i].PassesBarrier? || log[i].tid != t
      {
        assert i < |Reached(before).log| ==> log[i] == Reached(before).log[i];
      }
    }
  }

  // ---------- How a write is labelled ----------

  /** The thread is inside a call of lock or try-lock. */
  predicate InCall(p: Phase) {
    p.Waiting? || p.Obtained? || p.Trying? || p.TryTook? || p.TryMissed?
  }

  /** A thread's marking records are its requests for the mutex it is calling for. */
  lemma OnlyPending(s: System, strays: set<(Tid, Addr)>, mutexes: set<Addr>, t: Tid, k: Addr, i: nat)
    requires Inv(s, strays, mutexes) && PlainLocks(Run(s.log).locks, mutexes)
    requires Holds(Run(s.log).locks, k, i) && Marking(Run(s.log).locks[k][i], t)
    ensures InCall(PhaseOf(s, t)) && PhaseOf(s, t).m == k && Run(s.log).locks[k][i] == LockRec(t, REQUESTED, k)
  {
    var locks := Run(s.log).locks;
    assert At(locks, k, i, t, REQUESTED);
    assert Faithful(s, strays, locks, k) && FaithfulTo(s, strays, locks, k, t);
  }

  lemma PendingMarks(s: System, strays: set<(Tid, Addr)>, mutexes: set<Addr>, t: Tid)
    requires Inv(s, strays, mutexes) && InCall(PhaseOf(s, t))
    ensures Synced(Run(s.log).locks, t)
  {
    var locks, m := Run(s.log).locks, PhaseOf(s, t).m;
    assert PhaseRight(s, t, mutexes);
    assert Faithful(s, strays, locks, m) && FaithfulTo(s, strays, locks, m, t);
    var i: nat :| At(locks, m, i, t, REQUESTED);
  }

  /** The label a write gets in a state of such a run: the mutex its thread is calling for, if any. */
  lemma LabelInState(s: System, strays: set<(Tid, Addr)>, mutexes: set<Addr>, t: Tid)
    requires Inv(s, strays, mutexes) && PlainLocks(Run(s.log).locks, mutexes)
    ensures var l, p := MarksOf(Run(s.log).locks, t).how, PhaseOf(s, t);
      if InCall(p) then l.sync == ByMutex && l.mutexVar == p.m else l == UNMARKED.how
  {
    var locks := Run(s.log).locks;
    LastMarkWins(locks, t);
    if InCall(PhaseOf(s, t)) {
      PendingMarks(s, strays, mutexes, t);
      var k: Addr, i: nat :| LastMark(locks, t, k, i) && Names(MarksOf(locks, t).how, locks[k][i]);
      OnlyPending(s, strays, mutexes, t, k, i);
    } else {
      MarkedIff(locks, t);
      if k: Addr, i: nat :| Holds(locks, k, i) && Marking(locks[k][i], t) {
        OnlyPending(s, strays, mutexes, t, k, i);
      }
    }
  }

  /** The action that logged entry i. */
  ghost function LoggedBy(acts: seq<Action>, i: nat): nat
    requires i < |Reached(acts).log|
  {
    var before := acts[..|acts| - 1];
    if i < |Reached(before).log| then LoggedBy(before, i) else |before|
  }

  lemma {:induction false} LoggedByMeans(acts: seq<Action>, i: nat)
    requires i < |Reached(acts).log|
    ensures var k := LoggedBy(acts, i);
      && k < |acts| && Logged(acts[k]) == [Reached(acts).log[i]]
      && Reached(acts[..k]).log == Reached(acts).log[..i]
  {
    var before := acts[..|acts| - 1];
    var was, log := Reached(before).log, Reached(acts).log;
    LogGrows(Reached(before), acts[|acts| - 1]);
    if i < |was| {
      LoggedByMeans(before, i);
      var k := LoggedBy(before, i);
      assert before[..k] == acts[..k];
      assert was[..i] == log[..i] && was[i] == log[i];
    } else {
      assert log[..i] == was;
    }
  }

  /** Where the thread of entry i was when it was logged. */
  ghost function PhaseAt(acts: seq<Action>, i: nat): Phase
    requires i < |Reached(acts).log|
  {
    LoggedByMeans(acts, i);
    PhaseOf(Reached(acts[..LoggedBy(acts, i)]), Reached(acts).log[i].tid)
  }

  /**
   In every interleaving of a program that synchronises with mutexes only, a write record names the
   mutex whose lock or try-lock call its thread was inside, and is unlabelled iff it was inside none.
   */
  lemma LabelledInsideCalls(acts: seq<Action>, mutexes: set<Addr>, i: nat)
    requires Legal(acts, mutexes) && MutexOnly(acts)
    requires i < |Reached(acts).log| && Reached(acts).log[i].Writes?
    ensures var l, p := FinalLabel(Reached(acts).log, i), PhaseAt(acts, i);
      if InCall(p) then l.sync == ByMutex && l.mutexVar == p.m else l == UNMARKED.how
  {
    var log, k := Reached(acts).log, LoggedBy(acts, i);
    LoggedByMeans(acts, i);
    LegalPrefix(acts, mutexes, k);
    InvAlways(acts[..k], mutexes);
    PlainAlways(acts[..k], mutexes);
    LabelInState(Reached(acts[..k]), Strays(acts[..k]), mutexes, log[i].tid);
    NoBarrier(acts, log[i].tid);
    PassesAround(log, i, log[i].tid);
  }

  /** Some tracked write of a shared variable is made inside, or outside, a lock or try-lock call. */
  ghost predicate SharedWriteMade(acts: seq<Action>, inside: bool) {
    var log := Reached(acts).log;
    exists i: nat :: i < |log| && Tracked(log, i) && log[i].v in Shared(log) && InCall(PhaseAt(acts, i)) == inside
  }

  lemma BareIffOutside(acts: seq<Action>, mutexes: set<Addr>, i: nat)
    requires Legal(acts, mutexes) && MutexOnly(acts)
    requires i < |Reached(acts).log| && Tracked(Reached(acts).log, i)
    ensures Bare(Reached(acts).log, i) <==> !InCall(PhaseAt(acts, i))
  {
    LabelledInsideCalls(acts, mutexes, i);
    UnsyncedIff(Reached(acts).log, i);
  }

  lemma SharedWriteIffMade(acts: seq<Action>, mutexes: set<Addr>, bare: bool)
    requires Legal(acts, mutexes) && MutexOnly(acts)
    ensures SharedWrite(Reached(acts).log, bare) <==> SharedWriteMade(acts, !bare)
  {
    var log := Reached(acts).log;
    forall i: nat | i < |log| && Tracked(log, i)
      ensures Bare(log, i) <==> !InCall(PhaseAt(acts, i))
    {
      BareIffOutside(acts, mutexes, i);
    }
  }

  /**
   The verdict on every interleaving of such a program: 0 iff nothing is shared; 3, "totally safe",
   iff something is and every write of a shared variable is made inside a lock or try-lock call; 1,
   "totally unsafe", iff none is; 2 iff some are. Which mutexes are held plays no part.
   */
  lemma MutexOnlyVerdict(acts: seq<Action>, mutexes: set<Addr>)
    requires Legal(acts, mutexes) && MutexOnly(acts)
    ensures var log := Reached(acts).log;
      var r := Verdict(Run(log).index, Shared(log));
      && (r == 0 <==> Shared(log) == [])
      && (r == 3 <==> Shared(log) != [] && !SharedWriteMade(acts, false))
      && (r == 2 <==> SharedWriteMade(acts, true) && SharedWriteMade(acts, false))
      && (r == 1 <==> SharedWriteMade(acts, false) && !SharedWriteMade(acts, true))
  {
    VerdictIff(Reached(acts).log);
    SharedWriteIffMade(acts, mutexes, true);
    SharedWriteIffMade(acts, mutexes, false);
  }

  // ---------- A protected program and its verdict ----------

  /** From s the actions are enabled in turn and end in s'; every write among them is made by the owner of m. */
  ghost predicate Leads(s: System, w: seq<Action>, s': System, m: Addr)
    decreases |w|
  {
    if w == [] then s == s'
    else
      && Enabled(s, w[0], {m})
      && (w[0].Does? ==> w[0].e.Writes? && Owns(s, w[0].e.tid, m))
      && Leads(Next(s, w[0]), w[1..], s', m)
  }

  lemma LeadsOne(s: System, a: Action, m: Addr)
    requires Enabled(s, a, {m}) && (a.Does? ==> a.e.Writes? && Owns(s, a.e.tid, m))
    ensures Leads(s, [a], Next(s, a), m)
  {
    assert [a][1..] == [];
  }

  lemma {:induction false} LeadsThen(s: System, w: seq<Action>, s1: System, w': seq<Action>, s2: System, m: Addr)
    requires Leads(s, w, s1, m) && Leads(s1, w', s2, m)
    ensures Leads(s, w + w', s2, m)
    decreases |w|
  {
    if w == [] {
      assert w + w' == w';
    } else {
      LeadsThen(Next(s, w[0]), w[1..], s1, w', s2, m);
      assert (w + w')[1..] == w[1..] + w';
    }
  }

  lemma LeadsTwo(s: System, a: Action, b: Action, m: Addr)
    requires Enabled(s, a, {m}) && Enabled(Next(s, a), b, {m}) && !a.Does? && !b.Does?
    ensures Leads(s, [a, b], Next(Next(s, a), b), m)
  {
    LeadsOne(s, a, m);
    LeadsOne(Next(s, a), b, m);
    LeadsThen(s, [a], Next(s, a), [b], Next(Next(s, a), b), m);
    assert [a] + [b] == [a, b];
  }

  /** Every write of the run is made by the thread that owns m. */
  ghost predicate UnderMutex(acts: seq<Action>, m: Addr) {
    forall k :: 0 <= k < |acts| && acts[k].Does? ==> acts[k].e.Writes? && Owns(Reached(acts[..k]), acts[k].e.tid, m)
  }

  lemma UnderMutexPush(acts: seq<Action>, a: Action, m: Addr)
    requires UnderMutex(acts, m) && (a.Does? ==> a.e.Writes? && Owns(Reached(acts), a.e.tid, m))
    ensures UnderMutex(acts + [a], m)
  {
    var now := acts + [a];
    forall k | 0 <= k < |now| && now[k].Does?
      ensures now[k].e.Writes? && Owns(Reached(now[..k]), now[k].e.tid, m)
    {
      assert now[..k] == if k < |acts| then acts[..k] else acts;
    }
  }

  lemma ReachedPush(acts: seq<Action>, a: Action, mutexes: set<Addr>)
    ensures Reached(acts + [a]) == Next(Reached(acts), a)
    ensures Legal(acts + [a], mutexes) <==> Legal(acts, mutexes) && Enabled(Reached(acts), a, mutexes)
  {
    assert (acts + [a])[..|acts|] == acts;
  }

  lemma {:induction false} LeadsReached(acts: seq<Action>, w: seq<Action>, s': System, m: Addr)
    requires Legal(acts, {m}) && UnderMutex(acts, m) && Leads(Reached(acts), w, s', m)
    ensures Legal(acts + w, {m}) && UnderMutex(acts + w, m) && Reached(acts + w) == s'
    decreases |w|
  {
    if w == [] {
      assert acts + w == acts;
    } else {
      ReachedPush(acts, w[0], {m});
      UnderMutexPush(acts, w[0], m);
      MoveFirst(acts, w);
      LeadsReached(acts + [w[0]], w[1..], s', m);
    }
  }

  function Touches(t: Tid, vs: seq<Addr>): seq<Action> {
    seq(|vs|, i requires 0 <= i < |vs| => Does(Writes(t, vs[i])))
  }

  function WritesOf(t: Tid, vs: seq<Addr>): seq<Event> {
    seq(|vs|, i requires 0 <= i < |vs| => Writes(t, vs[i]))
  }

  lemma {:induction false} LeadsTouches(s: System, t: Tid, vs: seq<Addr>, m: Addr)
    requires Owns(s, t, m)
    ensures Leads(s, Touches(t, vs), s.(log := s.log + WritesOf(t, vs)), m)
    decreases |vs|
  {
    if vs == [] {
      assert s.log + WritesOf(t, vs) == s.log;
    } else {
      var now := Next(s, Does(Writes(t, vs[0])));
      LeadsTouches(now, t, vs[1..], m);
      assert Touches(t, vs)[1..] == Touches(t, vs[1..]);
      assert now.log + WritesOf(t, vs[1..]) == s.log + WritesOf(t, vs);
    }
  }

  /**
   What a locked section writes: inside the lock call, once it has the mutex (the lock routine's own
   stores, for a mutex whose words the tool logs); between the calls; and inside the unlock call.
   */
  datatype Work = Work(locking: seq<Addr>, holding: seq<Addr>, unlocking: seq<Addr>)

  function Section(t: Tid, m: Addr, w: Work): seq<Action> {
    ([CallLock(t, m), Obtain(t, m)] + Touches(t, w.locking)) + ([ReturnFromLock(t, m)] + Touches(t, w.holding))
    + (([CallUnlock(t, m)] + Touches(t, w.unlocking)) + [GiveUp(t, m)])
  }

  function SectionLog(t: Tid, m: Addr, w: Work): seq<Event> {
    [Requests(t, Mutex, m)] + WritesOf(t, w.locking) + [Acquires(t, Mutex, m)] + WritesOf(t, w.holding)
    + [Unlocks(t, Mutex, m)] + WritesOf(t, w.unlocking)
  }

  /** All mutexes free and all threads outside. */
  ghost predicate Quiet(s: System) {
    s.owner == map[] && forall t :: PhaseOf(s, t) == Outside
  }

  /** The three parts of a section. */
  lemma LeadsIn(s: System, t: Tid, m: Addr, vs: seq<Addr>)
    requires Quiet(s)
    ensures var s1 := System(map[m := t], s.phase[t := Obtained(m)], s.log + [Requests(t, Mutex, m)] + WritesOf(t, vs));
      Leads(s, [CallLock(t, m), Obtain(t, m)] + Touches(t, vs), s1, m)
  {
    var s0 := Next(Next(s, CallLock(t, m)), Obtain(t, m));
    assert PhaseOf(s, t) == Outside;
    LeadsTwo(s, CallLock(t, m), Obtain(t, m), m);
    LeadsTouches(s0, t, vs, m);
    LeadsThen(s, [CallLock(t, m), Obtain(t, m)], s0, Touches(t, vs), s0.(log := s0.log + WritesOf(t, vs)), m);
    assert s0.phase == s.phase[t := Obtained(m)];
  }

  lemma LeadsOn(s: System, t: Tid, m: Addr, vs: seq<Addr>)
    requires Owns(s, t, m) && PhaseOf(s, t) == Obtained(m)
    ensures var s2 := System(s.owner, s.phase[t := Outside], s.log + [Acquires(t, Mutex, m)] + WritesOf(t, vs));
      Leads(s, [ReturnFromLock(t, m)] + Touches(t, vs), s2, m)
  {
    var s1 := Next(s, ReturnFromLock(t, m));
    LeadsOne(s, ReturnFromLock(t, m), m);
    LeadsTouches(s1, t, vs, m);
    LeadsThen(s, [ReturnFromLock(t, m)], s1, Touches(t, vs), s1.(log := s1.log + WritesOf(t, vs)), m);
  }

  lemma LeadsOut(s: System, t: Tid, m: Addr, vs: seq<Addr>)
    requires Owns(s, t, m) && PhaseOf(s, t) == Outside
    ensures var s3 := System(s.owner - {m}, s.phase[t := Outside], s.log + [Unlocks(t, Mutex, m)] + WritesOf(t, vs));
      Leads(s, ([CallUnlock(t, m)] + Touches(t, vs)) + [GiveUp(t, m)], s3, m)
  {
    var s1 := Next(s, CallUnlock(t, m));
    var s2 := s1.(log := s1.log + WritesOf(t, vs));
    LeadsOne(s, CallUnlock(t, m), m);
    LeadsTouches(s1, t, vs, m);
    LeadsThen(s, [CallUnlock(t, m)], s1, Touches(t, vs), s2, m);
    LeadsOne(s2, GiveUp(t, m), m);
    LeadsThen(s, [CallUnlock(t, m)] + Touches(t, vs), s2, [GiveUp(t, m)], Next(s2, GiveUp(t, m)), m);
    assert Next(s2, GiveUp(t, m)).phase == s.phase[t := Outside];
  }

  lemma SectionLogJoins(log: seq<Event>, t: Tid, m: Addr, w: Work)
    ensures log + [Requests(t, Mutex, m)] + WritesOf(t, w.locking) + [Acquires(t, Mutex, m)] + WritesOf(t, w.holding)
            + [Unlocks(t, Mutex, m)] + WritesOf(t, w.unlocking) == log + SectionLog(t, m, w)
  {
    var a, b := [Requests(t, Mutex, m)], WritesOf(t, w.locking);
    var c, d := [Acquires(t, Mutex, m)], WritesOf(t, w.holding);
    var e, f := [Unlocks(t, Mutex, m)], WritesOf(t, w.unlocking);
    Associative(log, a, b);
    Associative(log, a + b, c);
    Associative(log, a + b + c, d);
    Associative(log, a + b + c + d, e);
    Associative(log, a + b + c + d + e, f);
  }

  lemma QuietAgain(s: System, s': System, t: Tid, m: Addr)
    requires Quiet(s) && s'.owner == map[m := t] - {m} && s'.phase == s.phase[t := Outside]
    ensures Quiet(s')
  {
    forall u
      ensures PhaseOf(s', u) == Outside
    {
      assert PhaseOf(s, u) == Outside;
    }
  }

  lemma LeadsSection(s: System, t: Tid, m: Addr, w: Work) returns (s': System)
    requires Quiet(s)
    ensures Leads(s, Section(t, m, w), s', m)
    ensures Quiet(s') && s'.log == s.log + SectionLog(t, m, w)
  {
    var s1 := System(map[m := t], s.phase[t := Obtained(m)], s.log + [Requests(t, Mutex, m)] + WritesOf(t, w.locking));
    var s2 := System(s1.owner, s1.phase[t := Outside], s1.log + [Acquires(t, Mutex, m)] + WritesOf(t, w.holding));
    s' := System(s2.owner - {m}, s2.phase[t := Outside], s2.log + [Unlocks(t, Mutex, m)] + WritesOf(t, w.unlocking));
    LeadsIn(s, t, m, w.locking);
    LeadsOn(s1, t, m, w.holding);
    LeadsOut(s2, t, m, w.unlocking);
    var a, b := [CallLock(t, m), Obtain(t, m)] + Touches(t, w.locking), [ReturnFromLock(t, m)] + Touches(t, w.holding);
    LeadsThen(s, a, s1, b, s2, m);
    LeadsThen(s, a + b, s2, ([CallUnlock(t, m)] + Touches(t, w.unlocking)) + [GiveUp(t, m)], s', m);
    QuietAgain(s, s', t, m);
    SectionLogJoins(s.log, t, m, w);
  }

  /** Two threads, one section each. */
  function Protected(t: Tid, u: Tid, m: Addr, w: Work): seq<Action> {
    Section(t, m, w) + Section(u, m, w)
  }

  lemma ProtectedRuns(t: Tid, u: Tid, m: Addr, w: Work)
    ensures var acts := Protected(t, u, m, w);
      && Legal(acts, {m}) && UnderMutex(acts, m)
      && Reached(acts).log == SectionLog(t, m, w) + SectionLog(u, m, w)
  {
    var none: seq<Action> := [];
    var a, b := Section(t, m, w), Section(u, m, w);
    var s1 := LeadsSection(START, t, m, w);
    var s2 := LeadsSection(s1, u, m, w);
    LeadsReached(none, a, s1, m);
    assert none + a == a;
    LeadsReached(a, b, s2, m);
    assert START.log + SectionLog(t, m, w) == SectionLog(t, m, w);
  }

  // ---------- The log of the two sections, entry by entry ----------

  function Half(w: Work): nat {
    |w.locking| + |w.holding| + |w.unlocking| + 3
  }

  /** Where a section's unlock is logged. */
  function UnlockAt(w: Work): nat {
    |w.locking| + |w.holding| + 2
  }

  predicate Avoids(w: Work, m: Addr) {
    m !in w.locking && m !in w.holding && m !in w.unlocking
  }

  /** Entry k of a section's log. */
  lemma SectionEntry(t: Tid, m: Addr, w: Work, k: nat)
    requires k < Half(w)
    ensures |SectionLog(t, m, w)| == Half(w)
    ensures SectionLog(t, m, w)[k] ==
            if k == 0 then Requests(t, Mutex, m)
            else if k <= |w.locking| then Writes(t, w.locking[k - 1])
            else if k == |w.locking| + 1 then Acquires(t, Mutex, m)
            else if k < UnlockAt(w) then Writes(t, w.holding[k - |w.locking| - 2])
            else if k == UnlockAt(w) then Unlocks(t, Mutex, m)
            else Writes(t, w.unlocking[k - UnlockAt(w) - 1])
  {
  }

  /** The position of an entry in its section. */
  function Offset(w: Work, i: nat): int {
    if i < Half(w) then i else i - Half(w)
  }

  /** What entry i of the log of two sections is. */
  predicate EntryRight(log: seq<Event>, t: Tid, u: Tid, m: Addr, w: Work, i: nat)
    requires i < |log|
  {
    var e, k := log[i], Offset(w, i);
    && e.tid == (if i < Half(w) then t else u)
    && (if k == 0 then e == Requests(e.tid, Mutex, m)
        else if k == |w.locking| + 1 then e == Acquires(e.tid, Mutex, m)
        else if k == UnlockAt(w) then e == Unlocks(e.tid, Mutex, m)
        else e.Writes? && e.v != m)
  }

  ghost predicate TwoSections(log: seq<Event>, t: Tid, u: Tid, m: Addr, w: Work) {
    && |log| == 2 * Half(w)
    && (forall i: nat :: i < |log| ==> EntryRight(log, t, u, m, w, i))
    && forall i: nat :: i < Half(w) && log[i].Writes? ==> log[Half(w) + i] == Writes(u, log[i].v)
  }

  lemma SectionsTwice(log: seq<Event>, t: Tid, u: Tid, m: Addr, w: Work)
    requires Avoids(w, m) && log == SectionLog(t, m, w) + SectionLog(u, m, w)
    ensures TwoSections(log, t, u, m, w)
  {
    SectionEntry(t, m, w, 0);
    SectionEntry(u, m, w, 0);
    forall i: nat | i < |log|
      ensures EntryRight(log, t, u, m, w, i)
    {
      SectionEntry(if i < Half(w) then t else u, m, w, Offset(w, i));
    }
    forall i: nat | i < Half(w) && log[i].Writes?
      ensures log[Half(w) + i] == Writes(u, log[i].v)
    {
      SectionEntry(t, m, w, i);
      SectionEntry(u, m, w, i);
    }
  }

  /** Inside the lock call the request of the section is still unanswered. */
  lemma GuardedInside(log: seq<Event>, t: Tid, u: Tid, m: Addr, w: Work, i: nat)
    requires TwoSections(log, t, u, m, w) && i < |log| && 1 <= Offset(w, i) <= |w.locking|
    ensures Guarded(log[..i], log[i].tid)
  {
    var b, before := i - Offset(w, i), log[..i];
    assert EntryRight(log, t, u, m, w, i) && EntryRight(log, t, u, m, w, b);
    forall j: nat
      ensures !Answers(before, b, j)
    {
      if b < j < i {
        assert EntryRight(log, t, u, m, w, j);
      }
    }
    assert Guards(before, b);
  }

  /** After it the request is answered as a mutex. */
  lemma UnguardedOutside(log: seq<Event>, t: Tid, u: Tid, m: Addr, w: Work, i: nat)
    requires TwoSections(log, t, u, m, w) && t != u && i < |log| && Offset(w, i) > |w.locking| + 1
    ensures !Guarded(log[..i], log[i].tid)
  {
    var b, before, n := i - Offset(w, i), log[..i], |w.locking|;
    assert EntryRight(log, t, u, m, w, i) && EntryRight(log, t, u, m, w, b);
    assert EntryRight(log, t, u, m, w, b + n + 1);
    assert Answers(before, b, b + n + 1);
    forall q: nat | q < i && before[q].tid == log[i].tid
      ensures !Guards(before, q)
    {
      assert EntryRight(log, t, u, m, w, q);
      if Asks(before[q]) {
        assert q == b;
        forall j: nat | j < i && before[j].Acquires?
          ensures before[j].kind == Mutex
        {
          assert EntryRight(log, t, u, m, w, j);
        }
      }
    }
  }

  /** Every write of such a log is tracked, and bare iff it is made outside the lock call. */
  lemma SectionWrite(log: seq<Event>, t: Tid, u: Tid, m: Addr, w: Work, i: nat)
    requires TwoSections(log, t, u, m, w) && t != u && i < |log| && log[i].Writes?
    ensures Tracked(log, i) && (Bare(log, i) <==> Offset(w, i) > |w.locking| + 1)
  {
    assert EntryRight(log, t, u, m, w, i);
    forall j: nat | j < |log|
      ensures Files(log[j]) in {None, Some(m)} && !log[j].PassesBarrier?
    {
      assert EntryRight(log, t, u, m, w, j);
    }
    if Offset(w, i) > |w.locking| + 1 {
      UnguardedOutside(log, t, u, m, w, i);
    } else {
      GuardedInside(log, t, u, m, w, i);
    }
  }

  /** A write of the first section is repeated in the second, so its variable is shared. */
  lemma SectionShared(log: seq<Event>, t: Tid, u: Tid, m: Addr, w: Work, i: nat)
    requires TwoSections(log, t, u, m, w) && t != u && i < Half(w) && log[i].Writes?
    ensures log[i].v in Shared(log)
  {
    assert EntryRight(log, t, u, m, w, i);
    SectionWrite(log, t, u, m, w, i);
    SectionWrite(log, t, u, m, w, Half(w) + i);
    TwoWritersShare(log, log[i].v, t, u);
  }

  /** A write at this offset is a shared one, bare iff the offset is past the lock call. */
  lemma WriteAtOffset(log: seq<Event>, t: Tid, u: Tid, m: Addr, w: Work, k: nat)
    requires TwoSections(log, t, u, m, w) && t != u
    requires 1 <= k < Half(w) && k != |w.locking| + 1 && k != UnlockAt(w)
    ensures SharedWrite(log, k > |w.locking| + 1)
  {
    assert EntryRight(log, t, u, m, w, k);
    SectionShared(log, t, u, m, w, k);
    SectionWrite(log, t, u, m, w, k);
  }

  /** Conversely a shared write lies at such an offset. */
  lemma OffsetOfWrite(log: seq<Event>, t: Tid, u: Tid, m: Addr, w: Work, bare: bool)
    requires TwoSections(log, t, u, m, w) && t != u && SharedWrite(log, bare)
    ensures if bare then w.holding != [] || w.unlocking != [] else w.locking != []
  {
    var i: nat :| i < |log| && Tracked(log, i) && log[i].v in Shared(log) && Bare(log, i) == bare;
    assert EntryRight(log, t, u, m, w, i);
    SectionWrite(log, t, u, m, w, i);
  }

  lemma SharedIffWritten(log: seq<Event>)
    ensures Shared(log) != [] <==> SharedWrite(log, true) || SharedWrite(log, false)
  {
    if Shared(log) != [] {
      var v := Shared(log)[0];
      assert v in Shared(log);
      var x, y := SharedWriters(log, v);
      var i: nat :| i < |log| && Tracked(log, i) && log[i].v == v && log[i].tid == x;
      assert SharedWrite(log, Bare(log, i));
    }
  }

  /** Which of the two kinds of shared write there are. */
  lemma SectionWrites(log: seq<Event>, t: Tid, u: Tid, m: Addr, w: Work)
    requires TwoSections(log, t, u, m, w) && t != u
    ensures SharedWrite(log, false) <==> w.locking != []
    ensures SharedWrite(log, true) <==> w.holding != [] || w.unlocking != []
  {
    if w.locking != [] {
      WriteAtOffset(log, t, u, m, w, 1);
    } else if SharedWrite(log, false) {
      OffsetOfWrite(log, t, u, m, w, false);
    }
    if w.holding != [] {
      WriteAtOffset(log, t, u, m, w, |w.locking| + 2);
    } else if w.unlocking != [] {
      WriteAtOffset(log, t, u, m, w, UnlockAt(w) + 1);
    } else if SharedWrite(log, true) {
      OffsetOfWrite(log, t, u, m, w, true);
    }
  }

  /**
   Two threads, each with one section under the same mutex: whatever they write, every write is made
   by the owner of the mutex, and the verdict is 0 iff they write nothing; otherwise 1 ("totally
   unsafe") iff the tool sees no write inside the lock calls, as for a mutex whose own words it does
   not log, 3 ("totally safe") iff it sees only such writes, and 2 iff it sees both.
   */
  lemma ProtectedProgramVerdict(t: Tid, u: Tid, m: Addr, w: Work)
    requires t != u && Avoids(w, m)
    ensures var acts := Protected(t, u, m, w);
      && Legal(acts, {m}) && UnderMutex(acts, m)
      && Verdict(Run(Reached(acts).log).index, Shared(Reached(acts).log)) ==
         if w.holding == [] && w.unlocking == [] then (if w.locking == [] then 0 else 3)
         else if w.locking == [] then 1 else 2
  {
    var log := Reached(Protected(t, u, m, w)).log;
    ProtectedRuns(t, u, m, w);
    SectionsTwice(log, t, u, m, w);
    SectionWrites(log, t, u, m, w);
    SharedIffWritten(log);
    VerdictIff(log);
  }
}
