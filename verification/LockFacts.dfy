/** Lock records: how their flags move, and what a scan of them says about a write. */
module LockFacts {
  import opened Basics
  import opened Ordered
  import opened Trace
  import opened Replay

  // ---------- Flags only move forward ----------

  /** One event moves a flag at most one step. */
  predicate FlagMoves(f: int, g: int) {
    f == g || (f == REQUESTED && g in {HELD, RW_HELD, SEM_HELD}) || (f == HELD && g == RELEASED)
  }

  /** Where a flag can get in any number of events. */
  predicate FlagLeads(f: int, g: int) {
    FlagMoves(f, g) || (f == REQUESTED && g == RELEASED)
  }

  ghost predicate Holds(locks: LockTable, k: Addr, i: nat) {
    k in locks && i < |locks[k]|
  }

  lemma FlagStep(tb: Tables, e: Event, k: Addr, i: nat)
    requires Holds(tb.locks, k, i)
    ensures Holds(Step(tb, e).locks, k, i)
    ensures var r, r' := tb.locks[k][i], Step(tb, e).locks[k][i];
            r'.tid == r.tid && r'.addr == r.addr && FlagMoves(r.flag, r'.flag)
  {
  }

  /**
   A lock record is never dropped or reassigned, and its flag only moves along
   2 to 1 to 0, 2 to 7 and 2 to 11; in particular 9 never changes.
   */
  lemma {:induction false} FlagsMoveForward(log: seq<Event>, more: seq<Event>, k: Addr, i: nat)
    requires Holds(Run(log).locks, k, i)
    ensures Holds(Run(log + more).locks, k, i)
    ensures var r, r' := Run(log).locks[k][i], Run(log + more).locks[k][i];
            r'.tid == r.tid && r'.addr == r.addr && FlagLeads(r.flag, r'.flag)
    decreases |more|
  {
    if more == [] {
      assert log + more == log;
    } else {
      FlagsMoveForward(log, Earlier(more), k, i);
      assert Earlier(log + more) == log + Earlier(more);
      assert Last(log + more) == Last(more);
      FlagStep(Run(log + Earlier(more)), Last(more), k, i);
    }
  }

  /** Every record is filed under its own address and carries one of the six flags. */
  ghost predicate WellFiled(locks: LockTable) {
    forall k: Addr, i: nat :: Holds(locks, k, i) ==>
      && locks[k][i].addr == k
      && locks[k][i].flag in {RELEASED, HELD, REQUESTED, RW_HELD, BARRIER_PASSED, SEM_HELD}
  }

  lemma StepWellFiled(tb: Tables, e: Event)
    requires WellFiled(tb.locks)
    ensures WellFiled(Step(tb, e).locks)
  {
    var after := Step(tb, e).locks;
    forall k: Addr, i: nat | Holds(after, k, i)
      ensures after[k][i].addr == k
      ensures after[k][i].flag in {RELEASED, HELD, REQUESTED, RW_HELD, BARRIER_PASSED, SEM_HELD}
    {
      if Holds(tb.locks, k, i) {
        FlagStep(tb, e, k, i);
      }
    }
  }

  lemma {:induction false} RunWellFiled(log: seq<Event>)
    ensures WellFiled(Run(log).locks)
  {
    if log == [] {
    } else {
      RunWellFiled(Earlier(log));
      StepWellFiled(Run(Earlier(log)), Last(log));
    }
  }

  // ---------- The scan that labels a write ----------

  ghost predicate HasFlag(locks: LockTable, t: Tid, f: int) {
    exists k: Addr, i: nat :: Holds(locks, k, i) && locks[k][i].tid == t && locks[k][i].flag == f
  }

  /** The thread has a record flagged as requested, or as held in the semaphore or rw-lock way. */
  ghost predicate Synced(locks: LockTable, t: Tid) {
    HasFlag(locks, t, REQUESTED) || HasFlag(locks, t, RW_HELD) || HasFlag(locks, t, SEM_HELD)
  }

  ghost predicate Barred(locks: LockTable, t: Tid) {
    HasFlag(locks, t, BARRIER_PASSED)
  }

  predicate Marking(r: LockRec, t: Tid) {
    r.tid == t && r.flag in {REQUESTED, RW_HELD, SEM_HELD, BARRIER_PASSED}
  }

  function SyncFor(flag: int): Sync {
    if flag == REQUESTED then ByMutex
    else if flag == SEM_HELD then BySemaphore
    else if flag == RW_HELD then ByRwLock
    else if flag == BARRIER_PASSED then ByBarrier
    else Unsynced
  }

  /** The label names this record: its kind of synchronisation and, in the matching field, its address. */
  ghost predicate Names(l: Label, r: LockRec) {
    && l.sync == SyncFor(r.flag)
    && (if r.flag == SEM_HELD then l.semVar else l.mutexVar) == r.addr
  }

  ghost predicate WhenBarred(m: Marks) {
    m.how.when == if m.barred then After else NoWhen
  }

  const SYNCED_FLAGS := {REQUESTED, RW_HELD, SEM_HELD}

  /** The list has a record of t with one of these flags. */
  ghost predicate SomeIn(s: seq<LockRec>, t: Tid, flags: set<int>) {
    exists i :: 0 <= i < |s| && s[i].tid == t && s[i].flag in flags
  }

  ghost predicate SomeUnder(locks: LockTable, keys: seq<Addr>, t: Tid, flags: set<int>) {
    exists k :: k in keys && SomeIn(Get(locks, k), t, flags)
  }

  lemma SomeInPush(s: seq<LockRec>, r: LockRec, t: Tid, flags: set<int>)
    ensures SomeIn(s + [r], t, flags) <==> SomeIn(s, t, flags) || (r.tid == t && r.flag in flags)
  {
    var now := s + [r];
    if i :| 0 <= i < |s| && s[i].tid == t && s[i].flag in flags {
      assert now[i].tid == t && now[i].flag in flags;
    }
    if r.tid == t && r.flag in flags {
      assert now[|s|].tid == t && now[|s|].flag in flags;
    }
  }

  lemma SomeUnderPush(locks: LockTable, keys: seq<Addr>, a: Addr, t: Tid, flags: set<int>)
    ensures SomeUnder(locks, keys + [a], t, flags) <==>
            SomeUnder(locks, keys, t, flags) || SomeIn(Get(locks, a), t, flags)
  {
    if k :| k in keys && SomeIn(Get(locks, k), t, flags) {
      assert k in keys + [a];
    }
    assert a in keys + [a];
  }

  lemma {:induction false} MarkListMeans(m: Marks, s: seq<LockRec>, t: Tid)
    ensures var n := MarkList(m, s, t);
      && (n.synced <==> m.synced || SomeIn(s, t, SYNCED_FLAGS))
      && (n.barred <==> m.barred || SomeIn(s, t, {BARRIER_PASSED}))
      && (WhenBarred(m) ==> WhenBarred(n))
  {
    if s == [] {
    } else {
      var before, r := s[..|s| - 1], s[|s| - 1];
      MarkListMeans(m, before, t);
      SomeInPush(before, r, t, SYNCED_FLAGS);
      SomeInPush(before, r, t, {BARRIER_PASSED});
      assert s == before + [r];
    }
  }

  // ---------- Which record decides which field of the label ----------

  /** The synchronisation kind, the mutex field and the semaphore field. */
  datatype Aspect = TheSync | TheMutex | TheSem

  function FlagsFor(p: Aspect): set<int> {
    match p
    case TheSync => {REQUESTED, RW_HELD, SEM_HELD, BARRIER_PASSED}
    case TheMutex => {REQUESTED, RW_HELD, BARRIER_PASSED}
    case TheSem => {SEM_HELD}
  }

  predicate Decides(r: LockRec, t: Tid, p: Aspect) {
    r.tid == t && r.flag in FlagsFor(p)
  }

  ghost predicate Shows(l: Label, r: LockRec, p: Aspect) {
    match p
    case TheSync => l.sync == SyncFor(r.flag)
    case TheMutex => l.mutexVar == r.addr
    case TheSem => l.semVar == r.addr
  }

  ghost predicate SameIn(l: Label, l': Label, p: Aspect) {
    match p
    case TheSync => l.sync == l'.sync
    case TheMutex => l.mutexVar == l'.mutexVar
    case TheSem => l.semVar == l'.semVar
  }

  ghost predicate NoneIn(s: seq<LockRec>, t: Tid, p: Aspect) {
    forall i :: 0 <= i < |s| ==> !Decides(s[i], t, p)
  }

  /** No deciding record of the list comes after this one. */
  ghost predicate LastIn(s: seq<LockRec>, t: Tid, p: Aspect, i: nat) {
    i < |s| && Decides(s[i], t, p) && forall j :: i < j < |s| ==> !Decides(s[j], t, p)
  }

  lemma LastInPush(s: seq<LockRec>, r: LockRec, t: Tid, p: Aspect, i: nat)
    requires !Decides(r, t, p) && LastIn(s, t, p, i)
    ensures LastIn(s + [r], t, p, i) && (s + [r])[i] == s[i]
  {
  }

  lemma MarkOne(m: Marks, r: LockRec, t: Tid, p: Aspect)
    ensures if Decides(r, t, p) then Shows(Mark(m, r, t).how, r, p) else SameIn(Mark(m, r, t).how, m.how, p)
  {
  }

  /** Within one list the last deciding record wins; a list with none leaves the field alone. */
  lemma {:induction false} MarkListLast(m: Marks, s: seq<LockRec>, t: Tid, p: Aspect) returns (at: Option<nat>)
    ensures var n := MarkList(m, s, t);
      match at
      case None => SameIn(n.how, m.how, p) && NoneIn(s, t, p)
      case Some(i) => LastIn(s, t, p, i) && Shows(n.how, s[i], p)
  {
    if s == [] {
      at := None;
    } else {
      var k := |s| - 1;
      var before := s[..k];
      at := MarkListLast(m, before, t, p);
      MarkOne(MarkList(m, before, t), s[k], t, p);
      assert s == before + [s[k]];
      if Decides(s[k], t, p) {
        at := Some(k);
      } else if at.Some? {
        LastInPush(before, s[k], t, p, at.value);
      }
    }
  }

  lemma {:induction false} MarkKeysMeans(locks: LockTable, keys: seq<Addr>, t: Tid)
    ensures var n := MarkKeys(UNMARKED, locks, keys, t);
      && (n.synced <==> SomeUnder(locks, keys, t, SYNCED_FLAGS))
      && (n.barred <==> SomeUnder(locks, keys, t, {BARRIER_PASSED}))
      && WhenBarred(n)
  {
    if keys == [] {
    } else {
      var before, a := keys[..|keys| - 1], keys[|keys| - 1];
      MarkKeysMeans(locks, before, t);
      MarkListMeans(MarkKeys(UNMARKED, locks, before, t), Get(locks, a), t);
      SomeUnderPush(locks, before, a, t, SYNCED_FLAGS);
      SomeUnderPush(locks, before, a, t, {BARRIER_PASSED});
      assert keys == before + [a];
    }
  }

  lemma SomeUnderAll(locks: LockTable, t: Tid, flags: set<int>)
    ensures SomeUnder(locks, Ascending(locks.Keys), t, flags) <==> exists f :: f in flags && HasFlag(locks, t, f)
  {
    if k :| k in Ascending(locks.Keys) && SomeIn(Get(locks, k), t, flags) {
      var i :| 0 <= i < |locks[k]| && locks[k][i].tid == t && locks[k][i].flag in flags;
      assert Holds(locks, k, i);
      assert HasFlag(locks, t, locks[k][i].flag);
    }
    if f :| f in flags && HasFlag(locks, t, f) {
      var k: Addr, i: nat :| Holds(locks, k, i) && locks[k][i].tid == t && locks[k][i].flag == f;
      assert SomeIn(Get(locks, k), t, flags);
    }
  }

  /** The two flags computed by the scan say exactly which kinds of record the writer has. */
  lemma MarksMean(locks: LockTable, t: Tid)
    ensures MarksOf(locks, t).synced <==> Synced(locks, t)
    ensures MarksOf(locks, t).barred <==> Barred(locks, t)
    ensures MarksOf(locks, t).how.when == if Barred(locks, t) then After else NoWhen
  {
    MarkKeysMeans(locks, Ascending(locks.Keys), t);
    SomeUnderAll(locks, t, SYNCED_FLAGS);
    SomeUnderAll(locks, t, {BARRIER_PASSED});
  }

  /** No deciding record comes after this one in iteration order. */
  ghost predicate LastFor(locks: LockTable, t: Tid, p: Aspect, k: Addr, i: nat) {
    && Holds(locks, k, i) && Decides(locks[k][i], t, p)
    && forall k': Addr, i': nat :: Holds(locks, k', i') && Decides(locks[k'][i'], t, p) ==>
         k' < k || (k' == k && i' <= i)
  }

  ghost predicate LastForIn(locks: LockTable, keys: seq<Addr>, t: Tid, p: Aspect, k: Addr, i: nat) {
    && k in keys && Holds(locks, k, i) && Decides(locks[k][i], t, p)
    && forall k': Addr, i': nat :: k' in keys && Holds(locks, k', i') && Decides(locks[k'][i'], t, p) ==>
         k' < k || (k' == k && i' <= i)
  }

  ghost predicate NoneUnder(locks: LockTable, keys: seq<Addr>, t: Tid, p: Aspect) {
    forall k: Addr, i: nat :: k in keys && Holds(locks, k, i) ==> !Decides(locks[k][i], t, p)
  }

  /** Adding a list without deciding records leaves the last one where it was. */
  lemma LastForKept(locks: LockTable, before: seq<Addr>, last: Addr, t: Tid, p: Aspect, k: Addr, i: nat)
    requires LastForIn(locks, before, t, p, k, i)
    requires last in locks && NoneIn(locks[last], t, p)
    ensures LastForIn(locks, before + [last], t, p, k, i)
  {
  }

  /** The last deciding record of the last list is the last one. */
  lemma LastForMoved(locks: LockTable, before: seq<Addr>, last: Addr, t: Tid, p: Aspect, i: nat)
    requires forall k :: k in before ==> k < last
    requires last in locks && LastIn(locks[last], t, p, i)
    ensures LastForIn(locks, before + [last], t, p, last, i)
  {
  }

  lemma NoneUnderPush(locks: LockTable, before: seq<Addr>, last: Addr, t: Tid, p: Aspect)
    requires NoneUnder(locks, before, t, p) && last in locks && NoneIn(locks[last], t, p)
    ensures NoneUnder(locks, before + [last], t, p)
  {
  }

  lemma {:induction false} MarkKeysLast(locks: LockTable, keys: seq<Addr>, t: Tid, p: Aspect)
    returns (at: Option<(Addr, nat)>)
    requires Rising(keys) && forall k :: k in keys ==> k in locks
    ensures var n := MarkKeys(UNMARKED, locks, keys, t);
      match at
      case None => SameIn(n.how, UNMARKED.how, p) && NoneUnder(locks, keys, t, p)
      case Some(x) => LastForIn(locks, keys, t, p, x.0, x.1) && Shows(n.how, locks[x.0][x.1], p)
  {
    if keys == [] {
      at := None;
    } else {
      var before, last := keys[..|keys| - 1], keys[|keys| - 1];
      assert keys == before + [last];
      at := MarkKeysLast(locks, before, t, p);
      var i := MarkListLast(MarkKeys(UNMARKED, locks, before, t), locks[last], t, p);
      if i.Some? {
        LastForMoved(locks, before, last, t, p, i.value);
        at := Some((last, i.value));
      } else if at.Some? {
        LastForKept(locks, before, last, t, p, at.value.0, at.value.1);
      } else {
        NoneUnderPush(locks, before, last, t, p);
      }
    }
  }

  /** All keys taken in order, the last deciding record among them is the last one. */
  lemma LastForOfAll(locks: LockTable, t: Tid, p: Aspect, k: Addr, i: nat)
    requires LastForIn(locks, Ascending(locks.Keys), t, p, k, i)
    ensures LastFor(locks, t, p, k, i)
  {
    assert forall x: Addr, j: nat :: Holds(locks, x, j) ==> x in Ascending(locks.Keys);
  }

  ghost predicate SomeDecides(locks: LockTable, t: Tid, p: Aspect) {
    exists k: Addr, i: nat :: Holds(locks, k, i) && Decides(locks[k][i], t, p)
  }

  lemma NoneDecides(locks: LockTable, t: Tid, p: Aspect)
    requires NoneUnder(locks, Ascending(locks.Keys), t, p)
    ensures !SomeDecides(locks, t, p)
  {
  }

  /** Each field shows the last record that decides it, or is as in a label that nothing decides. */
  lemma FieldOf(locks: LockTable, t: Tid, p: Aspect) returns (at: Option<(Addr, nat)>)
    ensures var l := MarksOf(locks, t).how;
      match at
      case None => !SomeDecides(locks, t, p) && SameIn(l, UNMARKED.how, p)
      case Some(x) => LastFor(locks, t, p, x.0, x.1) && Shows(l, locks[x.0][x.1], p)
  {
    at := MarkKeysLast(locks, Ascending(locks.Keys), t, p);
    match at {
      case None => NoneDecides(locks, t, p);
      case Some(x) => LastForOfAll(locks, t, p, x.0, x.1);
    }
  }

  lemma LabelShows(locks: LockTable, t: Tid, p: Aspect) returns (k: Addr, i: nat)
    requires SomeDecides(locks, t, p)
    ensures LastFor(locks, t, p, k, i) && Shows(MarksOf(locks, t).how, locks[k][i], p)
  {
    var at := FieldOf(locks, t, p);
    k, i := at.value.0, at.value.1;
  }

  lemma LabelBlank(locks: LockTable, t: Tid, p: Aspect)
    requires !SomeDecides(locks, t, p)
    ensures SameIn(MarksOf(locks, t).how, UNMARKED.how, p)
  {
    var at := FieldOf(locks, t, p);
  }

  /** The record at (k, i) is the last one of t in iteration order with one of these flags. */
  ghost predicate LastFlagged(locks: LockTable, t: Tid, flags: set<int>, k: Addr, i: nat) {
    && Holds(locks, k, i) && locks[k][i].tid == t && locks[k][i].flag in flags
    && forall k': Addr, i': nat :: Holds(locks, k', i') && locks[k'][i'].tid == t && locks[k'][i'].flag in flags ==>
         k' < k || (k' == k && i' <= i)
  }

  ghost predicate HasFlagIn(locks: LockTable, t: Tid, flags: set<int>) {
    exists f :: f in flags && HasFlag(locks, t, f)
  }

  lemma DecidesIff(locks: LockTable, t: Tid, p: Aspect)
    ensures SomeDecides(locks, t, p) <==> HasFlagIn(locks, t, FlagsFor(p))
  {
    if k: Addr, i: nat :| Holds(locks, k, i) && Decides(locks[k][i], t, p) {
      assert HasFlag(locks, t, locks[k][i].flag);
    }
  }

  /** The mutex field is the address of t's last record flagged 2, 7 or 9, or 0 if there is none. */
  lemma MutexField(locks: LockTable, t: Tid)
    ensures var l := MarksOf(locks, t).how;
      if HasFlagIn(locks, t, {REQUESTED, RW_HELD, BARRIER_PASSED})
      then exists k: Addr, i: nat ::
        LastFlagged(locks, t, {REQUESTED, RW_HELD, BARRIER_PASSED}, k, i) && l.mutexVar == locks[k][i].addr
      else l.mutexVar == 0
  {
    DecidesIff(locks, t, TheMutex);
    if SomeDecides(locks, t, TheMutex) {
      var k, i := LabelShows(locks, t, TheMutex);
      assert LastFlagged(locks, t, {REQUESTED, RW_HELD, BARRIER_PASSED}, k, i);
    } else {
      LabelBlank(locks, t, TheMutex);
    }
  }

  /** The semaphore field is the address of t's last record flagged 11, or 0 if there is none. */
  lemma SemaphoreField(locks: LockTable, t: Tid)
    ensures var l := MarksOf(locks, t).how;
      if HasFlag(locks, t, SEM_HELD)
      then exists k: Addr, i: nat :: LastFlagged(locks, t, {SEM_HELD}, k, i) && l.semVar == locks[k][i].addr
      else l.semVar == 0
  {
    DecidesIff(locks, t, TheSem);
    if SomeDecides(locks, t, TheSem) {
      var k, i := LabelShows(locks, t, TheSem);
      assert LastFlagged(locks, t, {SEM_HELD}, k, i);
    } else {
      LabelBlank(locks, t, TheSem);
    }
  }

  /** No marking record comes after this one in iteration order. */
  ghost predicate LastMark(locks: LockTable, t: Tid, k: Addr, i: nat) {
    && Holds(locks, k, i) && Marking(locks[k][i], t)
    && forall k': Addr, i': nat :: Holds(locks, k', i') && Marking(locks[k'][i'], t) ==> k' < k || (k' == k && i' <= i)
  }

  lemma MarkedIff(locks: LockTable, t: Tid)
    ensures Synced(locks, t) || Barred(locks, t) <==>
            exists k: Addr, i: nat :: Holds(locks, k, i) && Marking(locks[k][i], t)
  {
    if k: Addr, i: nat :| Holds(locks, k, i) && Marking(locks[k][i], t) {
      assert HasFlag(locks, t, locks[k][i].flag);
    }
  }

  /** The last mark is also the last record that decides the field it names. */
  lemma LastMarkNamed(locks: LockTable, t: Tid, k: Addr, i: nat, p: Aspect)
    requires LastMark(locks, t, k, i) && Decides(locks[k][i], t, p)
    ensures Shows(MarksOf(locks, t).how, locks[k][i], p)
  {
    var k', i' := LabelShows(locks, t, p);
    assert Marking(locks[k'][i'], t);
    assert k' == k && i' == i;
  }

  lemma LastMarkOf(locks: LockTable, t: Tid) returns (k: Addr, i: nat)
    requires Synced(locks, t) || Barred(locks, t)
    ensures LastMark(locks, t, k, i) && Names(MarksOf(locks, t).how, locks[k][i])
  {
    MarkedIff(locks, t);
    var x: Addr, n: nat :| Holds(locks, x, n) && Marking(locks[x][n], t);
    assert Decides(locks[x][n], t, TheSync);
    k, i := LabelShows(locks, t, TheSync);
    assert LastMark(locks, t, k, i);
    LastMarkNamed(locks, t, k, i, if locks[k][i].flag == SEM_HELD then TheSem else TheMutex);
  }

  lemma MarkedBy(locks: LockTable, t: Tid, p: Aspect)
    ensures SomeDecides(locks, t, p) ==> Synced(locks, t) || Barred(locks, t)
  {
    if k: Addr, i: nat :| Holds(locks, k, i) && Decides(locks[k][i], t, p) {
      assert HasFlag(locks, t, locks[k][i].flag);
    }
  }

  lemma Unmarked(locks: LockTable, t: Tid)
    requires !Synced(locks, t) && !Barred(locks, t)
    ensures MarksOf(locks, t).how == UNMARKED.how
  {
    MarksMean(locks, t);
    forall p
      ensures SameIn(MarksOf(locks, t).how, UNMARKED.how, p)
    {
      MarkedBy(locks, t, p);
      LabelBlank(locks, t, p);
    }
    assert SameIn(MarksOf(locks, t).how, UNMARKED.how, TheSync);
    assert SameIn(MarksOf(locks, t).how, UNMARKED.how, TheMutex);
    assert SameIn(MarksOf(locks, t).how, UNMARKED.how, TheSem);
  }

  /**
   A write is labelled after the writer's last marking record in iteration order, whatever the
   order in which the locks were requested; it is unlabelled iff the writer has no such record.
   */
  lemma LastMarkWins(locks: LockTable, t: Tid)
    ensures var l := MarksOf(locks, t).how;
      if Synced(locks, t) || Barred(locks, t)
      then exists k: Addr, i: nat :: LastMark(locks, t, k, i) && Names(l, locks[k][i])
      else l == UNMARKED.how
  {
    if Synced(locks, t) || Barred(locks, t) {
      var k, i := LastMarkOf(locks, t);
    } else {
      Unmarked(locks, t);
    }
  }

  lemma UnlabelledIff(locks: LockTable, t: Tid)
    ensures MarksOf(locks, t).how.sync == Unsynced <==> !Synced(locks, t) && !Barred(locks, t)
  {
    LastMarkWins(locks, t);
  }

  /**
   A semaphore or an rw-lock is never seen as released: once acquired on record, it labels every later
   write of its thread, whatever unlocks follow.
   */
  lemma HoldNeverEnds(log: seq<Event>, more: seq<Event>, k: Addr, i: nat)
    requires Holds(Run(log).locks, k, i) && Run(log).locks[k][i].flag in {RW_HELD, SEM_HELD}
    ensures var t := Run(log).locks[k][i].tid;
      MarksOf(Run(log + more).locks, t).synced && MarksOf(Run(log + more).locks, t).how.sync != Unsynced
  {
    var t := Run(log).locks[k][i].tid;
    var now: LockTable := Run(log + more).locks;
    FlagsMoveForward(log, more, k, i);
    assert now[k][i].tid == t && now[k][i].flag in {RW_HELD, SEM_HELD};
    UnlabelledIff(now, t);
    MarksMean(now, t);
  }

  /** How a record that was a pending request labels a write once the lock, of this kind, is acquired. */
  function SyncUnder(kind: LockKind): Sync {
    match kind
    case Mutex => Unsynced
    case Semaphore => BySemaphore
    case RwLock => ByRwLock
  }

  /** The record still labels writes of t after t acquires a: all do but the requests for a mutex a. */
  ghost predicate StillMarks(locks: LockTable, t: Tid, kind: LockKind, a: Addr, k: Addr, i: nat) {
    && Holds(locks, k, i) && Marking(locks[k][i], t)
    && !(kind == Mutex && k == a && locks[k][i].flag == REQUESTED)
  }

  /** No such record comes after this one in iteration order. */
  ghost predicate LastStill(locks: LockTable, t: Tid, kind: LockKind, a: Addr, k: Addr, i: nat) {
    && StillMarks(locks, t, kind, a, k, i)
    && forall k': Addr, i': nat :: StillMarks(locks, t, kind, a, k', i') ==> k' < k || (k' == k && i' <= i)
  }

  /** A write made after t acquires a is labelled by this record of the table before. */
  ghost predicate NamesThen(l: Label, r: LockRec, kind: LockKind, a: Addr) {
    && l.sync == (if r.addr == a && r.flag == REQUESTED then SyncUnder(kind) else SyncFor(r.flag))
    && (if l.sync == BySemaphore then l.semVar else l.mutexVar) == r.addr
  }

  /** Acquiring a turns the requests of t for a, and only these. */
  lemma AcquireRecord(tb: Tables, t: Tid, kind: LockKind, a: Addr, k: Addr, i: nat)
    requires WellFiled(tb.locks)
    ensures var now := Step(tb, Acquires(t, kind, a)).locks;
      && (Holds(now, k, i) <==> Holds(tb.locks, k, i))
      && (Holds(now, k, i) && Marking(now[k][i], t) <==> StillMarks(tb.locks, t, kind, a, k, i))
      && (StillMarks(tb.locks, t, kind, a, k, i) ==>
            forall l :: Names(l, now[k][i]) ==> NamesThen(l, tb.locks[k][i], kind, a))
  {
    var now := Step(tb, Acquires(t, kind, a)).locks;
    if Holds(tb.locks, k, i) {
      assert tb.locks[k][i].addr == k;
      assert now[k][i] == MoveFlag(tb.locks[k][i], t, a, REQUESTED, HeldFlag(kind));
    }
  }

  /**
   The label a write gets after t acquires a, from the table before: the last record that still
   marks names it. A pending request for a, which until then labelled writes as under a mutex
   whatever a is, now names a semaphore or an rw-lock; for a mutex it names nothing any more, and
   with nothing else to name a write made under the mutex is left unlabelled.
   */
  lemma LabelAroundAcquire(tb: Tables, t: Tid, kind: LockKind, a: Addr)
    requires WellFiled(tb.locks)
    ensures var l := MarksOf(Step(tb, Acquires(t, kind, a)).locks, t).how;
      if exists k: Addr, i: nat :: StillMarks(tb.locks, t, kind, a, k, i)
      then exists k: Addr, i: nat :: LastStill(tb.locks, t, kind, a, k, i) && NamesThen(l, tb.locks[k][i], kind, a)
      else l == UNMARKED.how
  {
    var now: LockTable := Step(tb, Acquires(t, kind, a)).locks;
    var l := MarksOf(now, t).how;
    forall k: Addr, i: nat
      ensures Holds(now, k, i) && Marking(now[k][i], t) <==> StillMarks(tb.locks, t, kind, a, k, i)
    {
      AcquireRecord(tb, t, kind, a, k, i);
    }
    LastMarkWins(now, t);
    MarkedIff(now, t);
    if exists k: Addr, i: nat :: StillMarks(tb.locks, t, kind, a, k, i) {
      var k: Addr, i: nat :| LastMark(now, t, k, i) && Names(l, now[k][i]);
      AcquireRecord(tb, t, kind, a, k, i);
      assert LastStill(tb.locks, t, kind, a, k, i);
    }
  }
}
