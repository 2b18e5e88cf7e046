/** The lock table read off the log: which entries file a record, and what its flag has become. */
module LogFacts {
  import opened Basics
  import opened Ordered
  import opened Trace
  import opened Replay
  import opened LockFacts

  /** The address under which an entry files a lock record, if it files one. */
  function Files(e: Event): Option<Addr> {
    match e
    case PassesBarrier(_, b) => Some(b)
    case Requests(_, _, a) => Some(a)
    case Tries(_, a) => Some(a)
    case _ => None
  }

  /** Some entry requests, tries or passes a. */
  ghost predicate NamesLock(log: seq<Event>, a: Addr) {
    exists j: nat :: j < |log| && Files(log[j]) == Some(a)
  }

  /** The positions of the entries that file a record under a, ascending. */
  ghost function Filings(log: seq<Event>, a: Addr): seq<nat> {
    if log == [] then []
    else Filings(Earlier(log), a) + if Files(Last(log)) == Some(a) then [|log| - 1] else []
  }

  function FirstFlag(e: Event): int {
    if e.PassesBarrier? then BARRIER_PASSED else REQUESTED
  }

  /** What one later entry makes of the flag of a record of t under a. */
  function FlagAfter(f: int, e: Event, t: Tid, a: Addr): int {
    match e
    case Acquires(u, kind, b) => if u == t && b == a && f == REQUESTED then HeldFlag(kind) else f
    case Unlocks(u, kind, b) => if u == t && b == a && f == HELD && kind != Semaphore then RELEASED else f
    case _ => f
  }

  /** The flag, at the end of the log, of the record that entry i filed. */
  ghost function FlagNow(log: seq<Event>, i: nat): int
    requires i < |log| && Files(log[i]).Some?
  {
    if |log| == i + 1 then FirstFlag(log[i])
    else FlagAfter(FlagNow(Earlier(log), i), Last(log), log[i].tid, Files(log[i]).value)
  }

  ghost function RecNow(log: seq<Event>, i: nat): LockRec
    requires i < |log| && Files(log[i]).Some?
  {
    LockRec(log[i].tid, FlagNow(log, i), Files(log[i]).value)
  }

  ghost predicate AllFile(log: seq<Event>, at: seq<nat>, a: Addr) {
    forall j :: 0 <= j < |at| ==> at[j] < |log| && Files(log[at[j]]) == Some(a)
  }

  ghost function RecsNow(log: seq<Event>, at: seq<nat>, a: Addr): seq<LockRec>
    requires AllFile(log, at, a)
  {
    seq(|at|, j requires 0 <= j < |at| => RecNow(log, at[j]))
  }

  // ---------- The closed form ----------

  lemma {:induction false} FilingPositions(log: seq<Event>, a: Addr, i: nat)
    ensures i in Filings(log, a) <==> i < |log| && Files(log[i]) == Some(a)
  {
    if log == [] {
    } else {
      FilingPositions(Earlier(log), a, i);
      assert i < |log| - 1 ==> Earlier(log)[i] == log[i];
    }
  }

  lemma {:induction false} FilingsRise(log: seq<Event>, a: Addr)
    ensures Rising(Filings(log, a))
  {
    if log == [] {
    } else {
      FilingsRise(Earlier(log), a);
      forall j | j in Filings(Earlier(log), a)
        ensures j < |log| - 1
      {
        FilingPositions(Earlier(log), a, j);
      }
      if Files(Last(log)) == Some(a) {
        RisingPush(Filings(Earlier(log), a), |log| - 1);
      }
    }
  }

  ghost function MoveAll(s: seq<LockRec>, e: Event, a: Addr): seq<LockRec> {
    seq(|s|, i requires 0 <= i < |s| => s[i].(flag := FlagAfter(s[i].flag, e, s[i].tid, a)))
  }

  /** Moving flags, seen from the records under one address. */
  lemma MoveRecords(locks: LockTable, t: Tid, b: Addr, from: int, to: int, e: Event, a: Addr)
    requires WellFiled(locks)
    requires forall f, u: Tid :: FlagAfter(f, e, u, a) == if u == t && a == b && f == from then to else f
    ensures Get(MoveFlags(locks, t, b, from, to), a) == MoveAll(Get(locks, a), e, a)
  {
    forall i: nat | i < |Get(locks, a)|
      ensures Get(locks, a)[i].addr == a
    {
      assert Holds(locks, a, i);
    }
  }

  /** What one event does to the records under one address. */
  lemma StepRecords(tb: Tables, e: Event, a: Addr)
    requires WellFiled(tb.locks)
    ensures Get(Step(tb, e).locks, a) ==
            MoveAll(Get(tb.locks, a), e, a) + if Files(e) == Some(a) then [LockRec(e.tid, FirstFlag(e), a)] else []
    ensures a in Step(tb, e).locks <==> a in tb.locks || Files(e) == Some(a)
  {
    match e {
      case Acquires(t, kind, b) => MoveRecords(tb.locks, t, b, REQUESTED, HeldFlag(kind), e, a);
      case Unlocks(t, kind, b) =>
        if kind == Semaphore {
          assert MoveAll(Get(tb.locks, a), e, a) == Get(tb.locks, a);
        } else {
          MoveRecords(tb.locks, t, b, HELD, RELEASED, e, a);
        }
      case _ => assert MoveAll(Get(tb.locks, a), e, a) == Get(tb.locks, a);
    }
  }

  lemma RecsNowStep(log: seq<Event>, at: seq<nat>, a: Addr)
    requires log != [] && AllFile(Earlier(log), at, a)
    ensures AllFile(log, at, a)
    ensures RecsNow(log, at, a) == MoveAll(RecsNow(Earlier(log), at, a), Last(log), a)
  {
    forall j | 0 <= j < |at|
      ensures at[j] < |log| && log[at[j]] == Earlier(log)[at[j]]
    {
    }
  }

  lemma RecsNowPush(log: seq<Event>, at: seq<nat>, a: Addr)
    requires log != [] && AllFile(log, at, a) && Files(Last(log)) == Some(a)
    ensures AllFile(log, at + [|log| - 1], a)
    ensures RecsNow(log, at + [|log| - 1], a) == RecsNow(log, at, a) + [LockRec(Last(log).tid, FirstFlag(Last(log)), a)]
  {
  }

  /** After every log the records under a are those filed by its entries, in log order, each with its flag. */
  lemma {:induction false} LocksClosedForm(log: seq<Event>, a: Addr)
    ensures AllFile(log, Filings(log, a), a)
    ensures Get(Run(log).locks, a) == RecsNow(log, Filings(log, a), a)
    ensures a in Run(log).locks <==> NamesLock(log, a)
  {
    if log == [] {
    } else {
      var before, e := Earlier(log), Last(log);
      var at := Filings(before, a);
      LocksClosedForm(before, a);
      RunWellFiled(before);
      StepRecords(Run(before), e, a);
      RecsNowStep(log, at, a);
      if Files(e) == Some(a) {
        RecsNowPush(log, at, a);
      }
      NamesLockStep(log, a);
    }
  }

  lemma NamesLockStep(log: seq<Event>, a: Addr)
    requires log != []
    ensures NamesLock(log, a) <==> NamesLock(Earlier(log), a) || Files(Last(log)) == Some(a)
  {
    if NamesLock(Earlier(log), a) {
      var j: nat :| j < |log| - 1 && Files(Earlier(log)[j]) == Some(a);
      assert Files(log[j]) == Some(a);
    }
    if NamesLock(log, a) {
      var j: nat :| j < |log| && Files(log[j]) == Some(a);
      assert j < |log| - 1 ==> Earlier(log)[j] == log[j];
    }
  }

  /** The record at place n under a is the one filed by the returned entry. */
  lemma RecordFiledBy(log: seq<Event>, a: Addr, n: nat) returns (i: nat)
    requires Holds(Run(log).locks, a, n)
    ensures i < |log| && Files(log[i]) == Some(a) && Run(log).locks[a][n] == RecNow(log, i)
  {
    LocksClosedForm(log, a);
    i := Filings(log, a)[n];
  }

  /** Every entry that files a record still has it at the end of the log. */
  lemma FiledRecord(log: seq<Event>, i: nat, a: Addr) returns (n: nat)
    requires i < |log| && Files(log[i]) == Some(a)
    ensures Holds(Run(log).locks, a, n) && Run(log).locks[a][n] == RecNow(log, i)
  {
    LocksClosedForm(log, a);
    FilingPositions(log, a, i);
    n :| n < |Filings(log, a)| && Filings(log, a)[n] == i;
  }

  // ---------- What a record's flag says about the log ----------

  /** Entry j is an acquisition that answers the request or try at entry i. */
  predicate Answers(log: seq<Event>, i: nat, j: nat)
    requires i < |log|
  {
    i < j < |log| && log[j].Acquires? && log[j].tid == log[i].tid && Files(log[i]) == Some(log[j].lock)
  }

  ghost predicate Unacquired(log: seq<Event>, i: nat)
    requires i < |log|
  {
    forall j: nat :: !Answers(log, i, j)
  }

  /** The first acquisition after entry i of the same lock by the same thread is of this kind. */
  ghost predicate AcquiredAs(log: seq<Event>, i: nat, kind: LockKind)
    requires i < |log|
  {
    exists j: nat :: FirstAnswer(log, i, j) && log[j].kind == kind
  }

  ghost predicate FirstAnswer(log: seq<Event>, i: nat, j: nat)
    requires i < |log|
  {
    Answers(log, i, j) && forall n: nat :: n < j ==> !Answers(log, i, n)
  }

  predicate Asks(e: Event) {
    e.Requests? || e.Tries?
  }

  /** One entry more keeps the first answer, or is it. */
  lemma AnswerStep(log: seq<Event>, i: nat)
    requires |log| > i + 1 && Asks(log[i])
    ensures var now := Answers(log, i, |log| - 1);
      && (Unacquired(log, i) <==> Unacquired(Earlier(log), i) && !now)
      && forall kind :: AcquiredAs(log, i, kind) <==>
           AcquiredAs(Earlier(log), i, kind) || (Unacquired(Earlier(log), i) && now && Last(log).kind == kind)
  {
    var before, last := Earlier(log), |log| - 1;
    assert forall j: nat :: j < last ==> Answers(log, i, j) == Answers(before, i, j);
    assert forall j: nat :: j < last ==> FirstAnswer(log, i, j) == FirstAnswer(before, i, j);
    assert FirstAnswer(log, i, last) <==> Answers(log, i, last) && Unacquired(before, i);
  }

  /** The flag of a requested or tried lock, as a fact about the acquisitions that followed. */
  lemma {:induction false} FlagNowMeans(log: seq<Event>, i: nat)
    requires i < |log| && Asks(log[i])
    ensures FlagNow(log, i) == REQUESTED <==> Unacquired(log, i)
    ensures FlagNow(log, i) == SEM_HELD <==> AcquiredAs(log, i, Semaphore)
    ensures FlagNow(log, i) == RW_HELD <==> AcquiredAs(log, i, RwLock)
    ensures FlagNow(log, i) in {HELD, RELEASED} <==> AcquiredAs(log, i, Mutex)
  {
    if |log| == i + 1 {
    } else {
      assert Earlier(log)[i] == log[i];
      FlagNowMeans(Earlier(log), i);
      AnswerStep(log, i);
    }
  }

  lemma {:induction false} BarrierFlag(log: seq<Event>, i: nat)
    requires i < |log| && log[i].PassesBarrier?
    ensures FlagNow(log, i) == BARRIER_PASSED
  {
    if |log| == i + 1 {
    } else {
      assert Earlier(log)[i] == log[i];
      BarrierFlag(Earlier(log), i);
    }
  }

  // ---------- The two questions a write asks ----------

  /** Entry i asks for a lock and has had no answer, or one that is never undone. */
  ghost predicate Guards(log: seq<Event>, i: nat)
    requires i < |log|
  {
    Asks(log[i]) && (Unacquired(log, i) || AcquiredAs(log, i, Semaphore) || AcquiredAs(log, i, RwLock))
  }

  /**
   Some request or try of t has no later acquisition of the same lock by t, or has one and the first
   such is of a semaphore or an rw-lock.
   */
  ghost predicate Guarded(log: seq<Event>, t: Tid) {
    exists i: nat :: i < |log| && log[i].tid == t && Guards(log, i)
  }

  ghost predicate Passes(log: seq<Event>, t: Tid) {
    exists i :: 0 <= i < |log| && log[i].PassesBarrier? && log[i].tid == t
  }

  lemma FlagOrigin(log: seq<Event>, t: Tid, f: int) returns (i: nat)
    requires HasFlag(Run(log).locks, t, f)
    ensures i < |log| && Files(log[i]).Some? && log[i].tid == t && FlagNow(log, i) == f
  {
    var locks: LockTable := Run(log).locks;
    var a: Addr, n: nat :| Holds(locks, a, n) && locks[a][n].tid == t && locks[a][n].flag == f;
    i := RecordFiledBy(log, a, n);
  }

  lemma FlagShown(log: seq<Event>, i: nat)
    requires i < |log| && Files(log[i]).Some?
    ensures HasFlag(Run(log).locks, log[i].tid, FlagNow(log, i))
  {
    var n := FiledRecord(log, i, Files(log[i]).value);
  }

  lemma GuardFromFlag(log: seq<Event>, t: Tid, f: int)
    requires f in {REQUESTED, RW_HELD, SEM_HELD} && HasFlag(Run(log).locks, t, f)
    ensures Guarded(log, t)
  {
    var i := FlagOrigin(log, t, f);
    if log[i].PassesBarrier? {
      BarrierFlag(log, i);
    } else {
      FlagNowMeans(log, i);
      assert Guards(log, i);
    }
  }

  /** A thread's writes are marked as synchronised iff the log so far shows it guarded. */
  lemma SyncedIff(log: seq<Event>, t: Tid)
    ensures Synced(Run(log).locks, t) <==> Guarded(log, t)
  {
    if Synced(Run(log).locks, t) {
      var f :| f in {REQUESTED, RW_HELD, SEM_HELD} && HasFlag(Run(log).locks, t, f);
      GuardFromFlag(log, t, f);
    }
    if Guarded(log, t) {
      var i: nat :| i < |log| && log[i].tid == t && Guards(log, i);
      FlagNowMeans(log, i);
      FlagShown(log, i);
    }
  }

  /** A barrier leaves a record flagged 9, so "has passed a barrier" can be read off the lock table. */
  lemma BarredIff(log: seq<Event>, t: Tid)
    ensures Barred(Run(log).locks, t) <==> Passes(log, t)
  {
    if Barred(Run(log).locks, t) {
      var i := FlagOrigin(log, t, BARRIER_PASSED);
      if Asks(log[i]) {
        FlagNowMeans(log, i);
        FlagKnown(log, i);
      }
    }
    if Passes(log, t) {
      var i :| 0 <= i < |log| && log[i].PassesBarrier? && log[i].tid == t;
      BarrierFlag(log, i);
      FlagShown(log, i);
    }
  }

  lemma {:induction false} FlagKnown(log: seq<Event>, i: nat)
    requires i < |log| && Asks(log[i])
    ensures FlagNow(log, i) != BARRIER_PASSED
  {
    if |log| == i + 1 {
    } else {
      assert Earlier(log)[i] == log[i];
      FlagKnown(Earlier(log), i);
    }
  }

  // ---------- The label a write gets, read off the log ----------

  /** How the record that entry j filed, if any, would label a write of its thread at the end of the log. */
  ghost function MarkKind(log: seq<Event>, j: nat): Sync
    requires j < |log|
  {
    if log[j].PassesBarrier? then ByBarrier
    else if !Asks(log[j]) then Unsynced
    else if Unacquired(log, j) then ByMutex
    else if AcquiredAs(log, j, Semaphore) then BySemaphore
    else if AcquiredAs(log, j, RwLock) then ByRwLock
    else Unsynced
  }

  lemma KindOfFlag(log: seq<Event>, j: nat)
    requires j < |log| && Files(log[j]).Some?
    ensures SyncFor(FlagNow(log, j)) == MarkKind(log, j)
  {
    if log[j].PassesBarrier? {
      BarrierFlag(log, j);
    } else {
      FlagNowMeans(log, j);
      FlagKnown(log, j);
    }
  }

  /** The address under which entry j filed its record. */
  function AddrAt(log: seq<Event>, j: nat): Addr
    requires j < |log| && Files(log[j]).Some?
  {
    Files(log[j]).value
  }

  /** Entry j filed a record of t of one of these kinds. */
  ghost predicate MarksAs(log: seq<Event>, t: Tid, kinds: set<Sync>, j: nat) {
    j < |log| && log[j].tid == t && Files(log[j]).Some? && MarkKind(log, j) in kinds
  }

  /** No such entry has a higher address, or the same one and comes later. */
  ghost predicate LastMarksAs(log: seq<Event>, t: Tid, kinds: set<Sync>, j: nat) {
    && MarksAs(log, t, kinds, j)
    && forall n: nat :: MarksAs(log, t, kinds, n) ==>
         AddrAt(log, n) < AddrAt(log, j) || (AddrAt(log, n) == AddrAt(log, j) && n <= j)
  }

  ghost predicate NoneMarksAs(log: seq<Event>, t: Tid, kinds: set<Sync>) {
    forall n: nat :: !MarksAs(log, t, kinds, n)
  }

  /** The kinds that the flags of an aspect stand for. */
  function KindsFor(p: Aspect): set<Sync> {
    match p
    case TheSync => {ByMutex, BySemaphore, ByRwLock, ByBarrier}
    case TheMutex => {ByMutex, ByRwLock, ByBarrier}
    case TheSem => {BySemaphore}
  }

  lemma KindsAreFlags(f: int, p: Aspect)
    ensures f in FlagsFor(p) <==> SyncFor(f) in KindsFor(p)
  {
  }

  /** An entry that marks has its record in the table. */
  lemma MarkInTable(log: seq<Event>, t: Tid, p: Aspect, j: nat) returns (n: nat)
    requires MarksAs(log, t, KindsFor(p), j)
    ensures var a := AddrAt(log, j);
      && Holds(Run(log).locks, a, n) && Decides(Run(log).locks[a][n], t, p)
      && n < |Filings(log, a)| && Filings(log, a)[n] == j
  {
    var a := AddrAt(log, j);
    LocksClosedForm(log, a);
    FilingPositions(log, a, j);
    n :| n < |Filings(log, a)| && Filings(log, a)[n] == j;
    KindOfFlag(log, j);
    KindsAreFlags(FlagNow(log, j), p);
  }

  /** The last deciding record of the table was filed by the last deciding entry of the log. */
  lemma LastInTable(log: seq<Event>, t: Tid, p: Aspect, a: Addr, n: nat) returns (j: nat)
    requires LastFor(Run(log).locks, t, p, a, n)
    ensures LastMarksAs(log, t, KindsFor(p), j) && AddrAt(log, j) == a
    ensures Run(log).locks[a][n] == LockRec(t, FlagNow(log, j), a)
  {
    LocksClosedForm(log, a);
    j := Filings(log, a)[n];
    KindOfFlag(log, j);
    KindsAreFlags(FlagNow(log, j), p);
    FilingsRise(log, a);
    forall q: nat | MarksAs(log, t, KindsFor(p), q)
      ensures AddrAt(log, q) < a || (AddrAt(log, q) == a && q <= j)
    {
      var m := MarkInTable(log, t, p, q);
    }
  }

  /** One field of the label, from the log. */
  lemma FieldFromLog(log: seq<Event>, t: Tid, p: Aspect) returns (j: Option<nat>)
    ensures var l := MarksOf(Run(log).locks, t).how;
      match j
      case None => SameIn(l, UNMARKED.how, p) && NoneMarksAs(log, t, KindsFor(p))
      case Some(i) => LastMarksAs(log, t, KindsFor(p), i) && Shows(l, LockRec(t, FlagNow(log, i), AddrAt(log, i)), p)
  {
    var at := FieldOf(Run(log).locks, t, p);
    match at {
      case None =>
        forall n: nat
          ensures !MarksAs(log, t, KindsFor(p), n)
        {
          if MarksAs(log, t, KindsFor(p), n) {
            var m := MarkInTable(log, t, p, n);
          }
        }
        j := None;
      case Some(x) =>
        var i := LastInTable(log, t, p, x.0, x.1);
        j := Some(i);
    }
  }

  const ALL_KINDS := {ByMutex, BySemaphore, ByRwLock, ByBarrier}

  /** The kind of a write of t made now is that of the last entry of t that marks, if one does. */
  lemma SyncFromLog(log: seq<Event>, t: Tid) returns (j: Option<nat>)
    ensures match j
      case None => NoneMarksAs(log, t, ALL_KINDS) && MarksOf(Run(log).locks, t).how.sync == Unsynced
      case Some(i) => LastMarksAs(log, t, ALL_KINDS, i) && MarksOf(Run(log).locks, t).how.sync == MarkKind(log, i)
  {
    assert KindsFor(TheSync) == ALL_KINDS;
    j := FieldFromLog(log, t, TheSync);
    if j.Some? {
      KindOfFlag(log, j.value);
    }
  }

  /** The mutex field: the address of the last request unanswered, rw-lock held or barrier passed, or 0. */
  lemma MutexFromLog(log: seq<Event>, t: Tid) returns (j: Option<nat>)
    ensures var kinds := {ByMutex, ByRwLock, ByBarrier};
      match j
      case None => NoneMarksAs(log, t, kinds) && MarksOf(Run(log).locks, t).how.mutexVar == 0
      case Some(i) => LastMarksAs(log, t, kinds, i) && MarksOf(Run(log).locks, t).how.mutexVar == AddrAt(log, i)
  {
    assert KindsFor(TheMutex) == {ByMutex, ByRwLock, ByBarrier};
    j := FieldFromLog(log, t, TheMutex);
  }

  /** The semaphore field: the address of the last semaphore held, or 0. */
  lemma SemaphoreFromLog(log: seq<Event>, t: Tid) returns (j: Option<nat>)
    ensures match j
      case None => NoneMarksAs(log, t, {BySemaphore}) && MarksOf(Run(log).locks, t).how.semVar == 0
      case Some(i) => LastMarksAs(log, t, {BySemaphore}, i) && MarksOf(Run(log).locks, t).how.semVar == AddrAt(log, i)
  {
    assert KindsFor(TheSem) == {BySemaphore};
    j := FieldFromLog(log, t, TheSem);
  }

  /** Of two last entries of the same kinds there is only one. */
  lemma LastMarkUnique(log: seq<Event>, t: Tid, kinds: set<Sync>, i: nat, j: nat)
    requires LastMarksAs(log, t, kinds, i) && LastMarksAs(log, t, kinds, j)
    ensures i == j
  {
  }

  /** A last entry among more kinds is the last among those of them that it has. */
  lemma LastMarkFewer(log: seq<Event>, t: Tid, kinds: set<Sync>, fewer: set<Sync>, j: nat)
    requires LastMarksAs(log, t, kinds, j) && fewer <= kinds && MarkKind(log, j) in fewer
    ensures LastMarksAs(log, t, fewer, j)
  {
    forall n: nat | MarksAs(log, t, fewer, n)
      ensures AddrAt(log, n) < AddrAt(log, j) || (AddrAt(log, n) == AddrAt(log, j) && n <= j)
    {
      assert MarksAs(log, t, kinds, n);
    }
  }

  /** The entry whose kind labels a write also has its address in the field that goes with the kind. */
  lemma LastMarkAddr(log: seq<Event>, t: Tid, j: nat)
    requires LastMarksAs(log, t, ALL_KINDS, j)
    ensures var l := MarksOf(Run(log).locks, t).how;
      l.sync == MarkKind(log, j) && (if l.sync == BySemaphore then l.semVar else l.mutexVar) == AddrAt(log, j)
  {
    var i := SyncFromLog(log, t);
    assert MarksAs(log, t, ALL_KINDS, j);
    LastMarkUnique(log, t, ALL_KINDS, i.value, j);
    if MarkKind(log, j) == BySemaphore {
      LastMarkFewer(log, t, ALL_KINDS, {BySemaphore}, j);
      var n := SemaphoreFromLog(log, t);
      LastMarkUnique(log, t, {BySemaphore}, n.value, j);
    } else {
      LastMarkFewer(log, t, ALL_KINDS, {ByMutex, ByRwLock, ByBarrier}, j);
      var n := MutexFromLog(log, t);
      LastMarkUnique(log, t, {ByMutex, ByRwLock, ByBarrier}, n.value, j);
    }
  }
}
