/** Replay, grouping and deciders together, as `Fini` runs them, stated in terms of the log alone. */
module Pipeline {
  import opened Trace
  import opened Replay
  import opened LogFacts
  import opened LabelFacts
  import opened TallyFacts
  import opened Deciders
  import opened DeciderFacts
  import opened Analyzer
  import opened Basics
  import opened LockUsers

  /** Two different threads have tracked writes of v. */
  ghost predicate SharedInLog(log: seq<Event>, v: Addr) {
    exists t, u :: t != u && WrittenBy(log, v, t) && WrittenBy(log, v, u)
  }

  /** Some tracked write of a shared variable is, or is not, left without a label. */
  ghost predicate SomeSharedWrite(log: seq<Event>, bare: bool) {
    exists i: nat :: i < |log| && Tracked(log, i) && SharedInLog(log, log[i].v) && Bare(log, i) == bare
  }

  /** A thread that created another has a tracked write of a shared variable. */
  ghost predicate CreatorUpdates(log: seq<Event>) {
    exists v, p :: SharedInLog(log, v) && WrittenBy(log, v, p) && exists e :: e in log && e.Creates? && e.tid == p
  }

  lemma SharedEmptyIff(log: seq<Event>)
    ensures Shared(log) == [] <==> forall v :: !SharedInLog(log, v)
  {
    forall v
      ensures v in Shared(log) <==> SharedInLog(log, v)
    {
      SharedIff(log, v);
    }
    if Shared(log) != [] {
      assert SharedInLog(log, Shared(log)[0]);
    }
  }

  lemma SharedWriteInLog(log: seq<Event>, bare: bool)
    ensures SharedWrite(log, bare) <==> SomeSharedWrite(log, bare)
  {
    forall v
      ensures v in Shared(log) <==> SharedInLog(log, v)
    {
      SharedIff(log, v);
    }
  }

  lemma UpdatesInLog(log: seq<Event>)
    ensures (exists e, p :: e in log && e.Writes? && p in RegionTids(e) && p in Run(log).created
                            && Updates(Run(log).index, Shared(log), p)) <==> CreatorUpdates(log)
  {
    UpdateScanRedundant(log);
    DoesUpdateIff(log);
    forall v
      ensures v in Shared(log) <==> SharedInLog(log, v)
    {
      SharedIff(log, v);
    }
  }

  /**
   The whole analysis. The safety verdict is 0 iff nothing is shared, 3 iff something is and no write
   of a shared variable is bare, 1 iff all of them are bare, 2 iff some are; the access report is
   never "partitioned".
   */
  method Analyze(log: seq<Event>) returns (safety: int, update: int, access: Access)
    ensures safety in {0, 1, 2, 3}
    ensures safety == 0 <==> forall v :: !SharedInLog(log, v)
    ensures safety == 3 <==> (exists v :: SharedInLog(log, v)) && !SomeSharedWrite(log, true)
    ensures safety == 2 <==> SomeSharedWrite(log, true) && SomeSharedWrite(log, false)
    ensures update in {0, 1} && (update == 1 <==> CreatorUpdates(log))
    ensures access == if safety == 0 then OnlyLocals else Overlapped
  {
    var tool := new Tool();
    tool.Replay(log);
    var summary := new Summary();
    NonEmptyLists(log);
    summary.SplitVariables(tool.index);
    safety := SafetyDecider(tool.index, summary.shared);
    update := DoesUpdate(log, tool.created, tool.index, summary.shared);
    access := DataAccess(tool.index, summary.shared);
    VerdictIff(log);
    NeverPartitioned(log);
    SharedEmptyIff(log);
    SharedWriteInLog(log, true);
    SharedWriteInLog(log, false);
    UpdatesInLog(log);
  }

  // ---------- Lock users ----------

  /** Entry j is the last of t that marks, and it asks for a and is unanswered, or answered for good. */
  ghost predicate LockMark(log: seq<Event>, t: Tid, j: nat, a: Addr) {
    && LastMarksAs(log, t, ALL_KINDS, j) && AddrAt(log, j) == a
    && MarkKind(log, j) in {ByMutex, BySemaphore, ByRwLock}
  }

  /** Entry i is a tracked write of v made with such a mark for a, and its thread passes no barrier later. */
  ghost predicate LockedAt(log: seq<Event>, v: Addr, a: Addr, i: nat) {
    && i < |log| && Tracked(log, i) && log[i].v == v && NoBarrierAfter(log, i, log[i].tid)
    && exists j: nat :: LockMark(log[..i], log[i].tid, j, a)
  }

  ghost predicate UsedAt(log: seq<Event>, v: Addr, a: Addr, t: Tid, i: nat) {
    LockedAt(log, v, a, i) && log[i].tid == t
  }

  /** Thread t has such a write of v. */
  ghost predicate UsedInLog(log: seq<Event>, v: Addr, a: Addr, t: Tid) {
    exists i: nat :: UsedAt(log, v, a, t, i)
  }

  lemma UnderLockIff(log: seq<Event>, i: nat, a: Addr)
    requires i < |log| && Tracked(log, i)
    ensures UnderLock(FinalLabel(log, i), a) <==> LockedAt(log, log[i].v, a, i)
  {
    var before, t := log[..i], log[i].tid;
    var b := BarrierAfterMeans(log, i, t);
    var j := SyncFromLog(before, t);
    if j.Some? {
      LastMarkAddr(before, t, j.value);
    }
    if LockedAt(log, log[i].v, a, i) {
      var n: nat :| LockMark(before, t, n, a);
      LastMarkAddr(before, t, n);
    }
    if UnderLock(FinalLabel(log, i), a) {
      assert BarrierAfter(log, i, t) == None;
      assert LockMark(before, t, j.value, a);
    }
  }

  /** The index list of v stands for these positions of the log. */
  ghost predicate ListedAt(log: seq<Event>, v: Addr, at: seq<nat>) {
    VarAt(log, v, at) && Get(Run(log).index, v) == FinalIndexRecs(log, at)
  }

  lemma NamesAtIs(log: seq<Event>, v: Addr, at: seq<nat>, a: Addr, n: nat)
    requires ListedAt(log, v, at)
    ensures NamesAt(Get(Run(log).index, v), a, n) <==> n < |at| && LockedAt(log, v, a, at[n])
  {
    if n < |at| {
      assert at[n] in at;
      UnderLockIff(log, at[n], a);
    }
  }

  lemma UsesAtIs(log: seq<Event>, v: Addr, at: seq<nat>, a: Addr, t: Tid, n: nat)
    requires ListedAt(log, v, at)
    ensures UsesAt(Get(Run(log).index, v), a, t, n) <==> n < |at| && UsedAt(log, v, a, t, at[n])
  {
    NamesAtIs(log, v, at, a, n);
  }

  lemma UsesInLog(log: seq<Event>, v: Addr, at: seq<nat>, a: Addr, t: Tid)
    requires ListedAt(log, v, at)
    ensures Uses(Get(Run(log).index, v), a, t) <==> UsedInLog(log, v, a, t)
  {
    if Uses(Get(Run(log).index, v), a, t) {
      var n: nat :| UsesAt(Get(Run(log).index, v), a, t, n);
      UsesAtIs(log, v, at, a, t, n);
    }
    if UsedInLog(log, v, a, t) {
      var i: nat :| UsedAt(log, v, a, t, i);
      assert i in at;
      var n: nat :| n < |at| && at[n] == i;
      UsesAtIs(log, v, at, a, t, n);
    }
  }

  lemma NamedInLog(log: seq<Event>, v: Addr, at: seq<nat>, a: Addr)
    requires ListedAt(log, v, at)
    ensures Named(Get(Run(log).index, v), a) <==> exists t :: UsedInLog(log, v, a, t)
  {
    var s := Get(Run(log).index, v);
    if Named(s, a) {
      var n: nat :| NamesAt(s, a, n);
      assert UsesAt(s, a, s[n].tid, n);
      UsesInLog(log, v, at, a, s[n].tid);
    }
    if t :| UsedInLog(log, v, a, t) {
      UsesInLog(log, v, at, a, t);
      var n: nat :| UsesAt(s, a, t, n);
      assert NamesAt(s, a, n);
    }
  }

  /** Some write of v is made under a before any is made under b. */
  ghost predicate LockedFirst(log: seq<Event>, v: Addr, a: Addr, b: Addr) {
    exists i: nat :: LockedAt(log, v, a, i) && forall n: nat :: n <= i ==> !LockedAt(log, v, b, n)
  }

  /** Thread t writes v under a before u does. */
  ghost predicate UsedBefore(log: seq<Event>, v: Addr, a: Addr, t: Tid, u: Tid) {
    exists i: nat :: UsedAt(log, v, a, t, i) && forall n: nat :: n <= i ==> !UsedAt(log, v, a, u, n)
  }

  /** An entry of v at or before the one listed at n is itself listed at or before n. */
  lemma ListedBefore(log: seq<Event>, v: Addr, at: seq<nat>, n: nat, i: nat) returns (m: nat)
    requires ListedAt(log, v, at) && n < |at| && i <= at[n] && Tracked(log, i) && log[i].v == v
    ensures m <= n && at[m] == i
  {
    assert i in at;
    m :| m < |at| && at[m] == i;
  }

  lemma LockedFirstIs(log: seq<Event>, v: Addr, at: seq<nat>, a: Addr, b: Addr)
    requires ListedAt(log, v, at) && NamedFirst(Get(Run(log).index, v), a, b)
    ensures LockedFirst(log, v, a, b)
  {
    var s := Get(Run(log).index, v);
    var n: nat :| NamesAt(s, a, n) && forall m: nat :: m <= n ==> !NamesAt(s, b, m);
    NamesAtIs(log, v, at, a, n);
    forall i: nat | i <= at[n]
      ensures !LockedAt(log, v, b, i)
    {
      if LockedAt(log, v, b, i) {
        var m := ListedBefore(log, v, at, n, i);
        NamesAtIs(log, v, at, b, m);
      }
    }
  }

  lemma UsedBeforeIs(log: seq<Event>, v: Addr, at: seq<nat>, a: Addr, t: Tid, u: Tid)
    requires ListedAt(log, v, at) && UsedFirst(Get(Run(log).index, v), a, t, u)
    ensures UsedBefore(log, v, a, t, u)
  {
    var s := Get(Run(log).index, v);
    var n: nat :| UsesAt(s, a, t, n) && forall m: nat :: m <= n ==> !UsesAt(s, a, u, m);
    UsesAtIs(log, v, at, a, t, n);
    forall i: nat | i <= at[n]
      ensures !UsedAt(log, v, a, u, i)
    {
      if UsedAt(log, v, a, u, i) {
        var m := ListedBefore(log, v, at, n, i);
        UsesAtIs(log, v, at, a, u, m);
      }
    }
  }

  /** A group's slots in use hold the lock's users, each once and in the order of their first such write. */
  ghost predicate GroupInLog(g: Group, log: seq<Event>, v: Addr) {
    && |g.tid| == SLOTS && g.count < SLOTS && Distinct(g.tid[..g.count + 1])
    && (forall t :: t in g.tid[..g.count + 1] <==> UsedInLog(log, v, g.lock, t))
    && forall x, y :: 0 <= x < y <= g.count ==> UsedBefore(log, v, g.lock, g.tid[x], g.tid[y])
  }

  /** Each lock that a write of v is made under has one group, in the order of the first such writes. */
  ghost predicate GroupedInLog(list: seq<Group>, log: seq<Event>, v: Addr) {
    && (forall i, j :: 0 <= i < j < |list| ==> list[i].lock != list[j].lock)
    && (forall i, j :: 0 <= i < j < |list| ==> LockedFirst(log, v, list[i].lock, list[j].lock))
    && (forall a, t :: UsedInLog(log, v, a, t) ==> exists i :: 0 <= i < |list| && list[i].lock == a)
    && forall i :: 0 <= i < |list| ==> GroupInLog(list[i], log, v)
  }

  ghost function Writers(log: seq<Event>): set<Tid> {
    set i | 0 <= i < |log| && log[i].Writes? :: log[i].tid
  }

  lemma IndexThreads(log: seq<Event>, v: Addr, r: IndexRec)
    requires v in Run(log).index && r in Run(log).index[v]
    ensures r.tid in Writers(log)
  {
    var i := IndexOrigin(log, v, r);
    assert log[i].Writes? && log[i].tid == r.tid;
  }

  lemma GroupIsInLog(g: Group, log: seq<Event>, v: Addr, at: seq<nat>, unset: seq<Tid>)
    requires ListedAt(log, v, at) && GroupRight(g, Get(Run(log).index, v), unset)
    ensures GroupInLog(g, log, v)
  {
    forall t
      ensures t in g.tid[..g.count + 1] <==> UsedInLog(log, v, g.lock, t)
    {
      UsesInLog(log, v, at, g.lock, t);
    }
    forall x, y | 0 <= x < y <= g.count
      ensures UsedBefore(log, v, g.lock, g.tid[x], g.tid[y])
    {
      UsedBeforeIs(log, v, at, g.lock, g.tid[x], g.tid[y]);
    }
  }

  lemma GroupsInLog(list: seq<Group>, log: seq<Event>, v: Addr, unset: seq<Tid>)
    requires Grouped(list, Get(Run(log).index, v), unset)
    ensures GroupedInLog(list, log, v)
  {
    var at := IndexClosedForm(log, v);
    forall i, j | 0 <= i < j < |list|
      ensures LockedFirst(log, v, list[i].lock, list[j].lock)
    {
      LockedFirstIs(log, v, at, list[i].lock, list[j].lock);
    }
    forall a, t | UsedInLog(log, v, a, t)
      ensures exists i :: 0 <= i < |list| && list[i].lock == a
    {
      NamedInLog(log, v, at, a);
    }
    forall i | 0 <= i < |list|
      ensures GroupInLog(list[i], log, v)
    {
      GroupIsInLog(list[i], log, v, at, unset);
    }
  }

  lemma LockedInLog(log: seq<Event>, v: Addr)
    ensures (v in Run(log).index && SomeLocked(Run(log).index[v])) <==> exists a, t :: UsedInLog(log, v, a, t)
  {
    var at := IndexClosedForm(log, v);
    if v in Run(log).index && SomeLocked(Run(log).index[v]) {
      var a :| Named(Run(log).index[v], a);
      NamedInLog(log, v, at, a);
    }
    if a, t :| UsedInLog(log, v, a, t) {
      NamedInLog(log, v, at, a);
      assert Named(Get(Run(log).index, v), a);
    }
  }

  /** The map has an entry for exactly the variables with a write under a lock, and its groups are right. */
  ghost predicate UsersInLog(users: map<Addr, seq<Group>>, log: seq<Event>) {
    && (forall v :: v in users <==> exists a, t :: UsedInLog(log, v, a, t))
    && forall v :: v in users ==> GroupedInLog(users[v], log, v)
  }

  lemma AllInLog(users: map<Addr, seq<Group>>, log: seq<Event>, unset: seq<Tid>)
    requires forall v :: v in users <==> v in Run(log).index && SomeLocked(Run(log).index[v])
    requires forall v :: v in users ==> Grouped(users[v], Run(log).index[v], unset)
    ensures UsersInLog(users, log)
  {
    forall v
      ensures v in users <==> exists a, t :: UsedInLog(log, v, a, t)
    {
      LockedInLog(log, v);
    }
    forall v | v in users
      ensures GroupedInLog(users[v], log, v)
    {
      GroupsInLog(users[v], log, v, unset);
    }
  }

  /**
   Replay and lock grouping together: for any log with at most 50 writing threads, `mutexglobalinmap`
   has an entry for exactly the variables with a tracked write made under a lock (while its thread's
   last mark is a request unanswered, or answered first as a semaphore or an rw-lock) by a thread
   that passes no barrier later; and the entry's groups are the users of each such lock.
   */
  method GroupUsers(log: seq<Event>, unset: seq<Tid>) returns (users: map<Addr, seq<Group>>)
    requires |unset| == SLOTS && |Writers(log)| <= SLOTS && forall t :: t in Writers(log) ==> t !in unset[1..]
    ensures UsersInLog(users, log)
  {
    var tool := new Tool();
    tool.Replay(log);
    forall v, r | v in tool.index && r in tool.index[v]
      ensures r.tid in Writers(log)
    {
      IndexThreads(log, v, r);
    }
    users := GroupAll(tool.index, unset, Writers(log));
    AllInLog(users, log, unset);
  }

  // ---------- Access lists and counts ----------

  /** The access list of t: each shared variable as often as t has tracked writes of it, ascending. */
  ghost predicate AccessedInLog(list: seq<Addr>, log: seq<Event>, t: Tid) {
    && NeverFalls(list)
    && forall v :: multiset(list)[v] == if SharedInLog(log, v) then |WriteSet(log, v, t)| else 0
  }

  lemma AccessListInLog(log: seq<Event>, t: Tid)
    ensures AccessedInLog(AccessList(Run(log).index, Shared(log), t), log, t)
  {
    SharedRises(log);
    ListNeverFalls(Run(log).index, Shared(log), t);
    forall v
      ensures multiset(AccessList(Run(log).index, Shared(log), t))[v] ==
              if SharedInLog(log, v) then |WriteSet(log, v, t)| else 0
    {
      CountInList(Run(log).index, Shared(log), t, v);
      HitsInLog(log, v, t);
      SharedIff(log, v);
    }
  }

  lemma NonEmptyIff(list: seq<Addr>, log: seq<Event>, t: Tid)
    requires AccessedInLog(list, log, t)
    ensures list != [] <==> exists v :: SharedInLog(log, v) && WrittenBy(log, v, t)
  {
    if list != [] {
      var v := list[0];
      assert multiset(list)[v] > 0;
      assert WriteSet(log, v, t) != {};
      var i :| i in WriteSet(log, v, t);
    }
    if v :| SharedInLog(log, v) && WrittenBy(log, v, t) {
      var i: nat :| i < |log| && Tracked(log, i) && log[i].v == v && log[i].tid == t;
      assert i in WriteSet(log, v, t);
      assert multiset(list)[v] > 0;
    }
  }

  /** Replay, split and access lists together: `imap` has a list for each thread that writes a shared variable. */
  method AccessLists(log: seq<Event>) returns (accessed: map<Tid, seq<Addr>>)
    ensures forall t :: AccessedInLog(Get(accessed, t), log, t)
    ensures forall t :: t in accessed <==> exists v :: SharedInLog(log, v) && WrittenBy(log, v, t)
  {
    var tool := new Tool();
    tool.Replay(log);
    var summary := new Summary();
    NonEmptyLists(log);
    summary.SplitVariables(tool.index);
    summary.BuildAccessLists(tool.index);
    accessed := summary.accessed;
    forall t
      ensures AccessedInLog(Get(accessed, t), log, t)
      ensures t in accessed <==> exists v :: SharedInLog(log, v) && WrittenBy(log, v, t)
    {
      AccessListInLog(log, t);
      NonEmptyIff(Get(accessed, t), log, t);
    }
  }

  /** The positions of the tracked writes of shared variables by t. */
  ghost function SharedWritesBy(log: seq<Event>, t: Tid): set<nat> {
    set i: nat | i < |log| && Tracked(log, i) && SharedInLog(log, log[i].v) && log[i].tid == t
  }

  lemma SharedWritesAre(log: seq<Event>, t: Tid)
    ensures WritesAmong(log, Shared(log), t) == SharedWritesBy(log, t)
  {
    forall v
      ensures v in Shared(log) <==> SharedInLog(log, v)
    {
      SharedIff(log, v);
    }
  }

  /** The update count of a thread: its tracked writes of shared variables, 0.15 standing for none. */
  method UpdateCount(log: seq<Event>, t: Tid) returns (r: real)
    ensures var n := |SharedWritesBy(log, t)|; r == if n == 0 then 0.15 else n as real
  {
    var tool := new Tool();
    tool.Replay(log);
    var summary := new Summary();
    NonEmptyLists(log);
    summary.SplitVariables(tool.index);
    SharedRises(log);
    AccessCountInLog(log, Shared(log), t);
    SharedWritesAre(log, t);
    r := GlobalUpdatesThread(tool.index, summary.shared, t);
  }

  /** Every record of t for v is in exactly one of the three classes that the counters sort by. */
  lemma {:induction false} CountersCoverWrites(log: seq<Event>, v: Addr, t: Tid)
    ensures SyncedWrites(log, v, t) + BarrierWrites(log, v, t) + PlainWrites(log, v, t) ==
            Hits(Get(Run(log).index, v), t)
  {
    if log == [] {
    } else {
      CountersCoverWrites(Earlier(log), v, t);
      assert log[..|log| - 1] == Earlier(log);
      if Last(log).Writes? {
        TrackedIff(log, |log| - 1);
      }
      HitsStep(Run(Earlier(log)), Last(log), v, t);
    }
  }
}
