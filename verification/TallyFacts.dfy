/** The per-thread counters of a variable, as counts over the log. */
module TallyFacts {
  import opened Trace
  import opened Replay
  import opened LockFacts
  import opened LogFacts
  import opened LabelFacts

  /** The last entry is a tracked write of v by t. */
  ghost predicate LastHits(log: seq<Event>, v: Addr, t: Tid)
    requires log != []
  {
    Tracked(log, |log| - 1) && Last(log).v == v && Last(log).tid == t
  }

  ghost predicate Wrote(log: seq<Event>, v: Addr, t: Tid) {
    log != [] && (LastHits(log, v, t) || Wrote(Earlier(log), v, t))
  }

  /** Tracked writes of v by t made while t was guarded. */
  ghost function SyncedWrites(log: seq<Event>, v: Addr, t: Tid): nat {
    if log == [] then 0
    else if LastHits(log, v, t) && Guarded(Earlier(log), t) then SyncedWrites(Earlier(log), v, t) + 1
    else SyncedWrites(Earlier(log), v, t)
  }

  /** Tracked writes of v by t made while t was not guarded but had passed a barrier. */
  ghost function BarrierWrites(log: seq<Event>, v: Addr, t: Tid): nat {
    if log == [] then 0
    else if LastHits(log, v, t) && !Guarded(Earlier(log), t) && Passes(Earlier(log), t) then
      BarrierWrites(Earlier(log), v, t) + 1
    else BarrierWrites(Earlier(log), v, t)
  }

  /** Tracked writes of v by t made while t was not guarded and had passed no barrier. */
  ghost function PlainWrites(log: seq<Event>, v: Addr, t: Tid): nat {
    if log == [] then 0
    else if LastHits(log, v, t) && !Guarded(Earlier(log), t) && !Passes(Earlier(log), t) then
      PlainWrites(Earlier(log), v, t) + 1
    else PlainWrites(Earlier(log), v, t)
  }

  /** Barriers passed by t after its first tracked write of v. */
  ghost function BarriersSince(log: seq<Event>, v: Addr, t: Tid): nat {
    if log == [] then 0
    else if Wrote(Earlier(log), v, t) && Last(log).PassesBarrier? && Last(log).tid == t then
      BarriersSince(Earlier(log), v, t) + 1
    else BarriersSince(Earlier(log), v, t)
  }

  /** The log up to the first tracked write of v by t. */
  ghost function BeforeFirst(log: seq<Event>, v: Addr, t: Tid): seq<Event>
    requires Wrote(log, v, t)
  {
    if Wrote(Earlier(log), v, t) then BeforeFirst(Earlier(log), v, t) else Earlier(log)
  }

  ghost predicate FirstPlain(log: seq<Event>, v: Addr, t: Tid)
    requires Wrote(log, v, t)
  {
    !Guarded(BeforeFirst(log, v, t), t) && !Passes(BeforeFirst(log, v, t), t)
  }

  ghost predicate FirstBoth(log: seq<Event>, v: Addr, t: Tid)
    requires Wrote(log, v, t)
  {
    Guarded(BeforeFirst(log, v, t), t) && Passes(BeforeFirst(log, v, t), t)
  }

  /** The counters of one thread in a list of counters. */
  ghost function Entries(s: seq<Tally>, t: Tid): seq<Tally> {
    if s == [] then []
    else Entries(s[..|s| - 1], t) + if s[|s| - 1].tid == t then [s[|s| - 1]] else []
  }

  /** The counters of t for v after replaying the log. */
  ghost function Mine(log: seq<Event>, v: Addr, t: Tid): seq<Tally> {
    Entries(Get(Run(log).tallies, v), t)
  }

  /**
   `cglobalinmap[v]` has one entry for each thread with a tracked write of v and none for another.
   A first write that is plain is not counted at all; one that is both synchronised and past a
   barrier is counted twice; every later barrier of the thread adds one more.
   */
  ghost predicate TalliesMatch(log: seq<Event>, v: Addr, t: Tid) {
    var mine := Mine(log, v, t);
    if !Wrote(log, v, t) then mine == []
    else
      && |mine| == 1
      && mine[0].scount == SyncedWrites(log, v, t)
      && mine[0].count + (if FirstPlain(log, v, t) then 1 else 0) == PlainWrites(log, v, t)
      && mine[0].bcount == BarrierWrites(log, v, t) + BarriersSince(log, v, t)
                           + if FirstBoth(log, v, t) then 1 else 0
  }

  lemma HasTallyPush(s: seq<Tally>, c: Tally, t: Tid)
    ensures HasTally(s + [c], t) <==> HasTally(s, t) || c.tid == t
  {
    var now := s + [c];
    if i :| 0 <= i < |s| && s[i].tid == t {
      assert now[i].tid == t;
    }
    if c.tid == t {
      assert now[|s|].tid == t;
    }
  }

  lemma {:induction false} EntriesHas(s: seq<Tally>, t: Tid)
    ensures HasTally(s, t) <==> Entries(s, t) != []
  {
    if s == [] {
    } else {
      var k := |s| - 1;
      EntriesHas(s[..k], t);
      HasTallyPush(s[..k], s[k], t);
      assert s == s[..k] + [s[k]];
    }
  }

  lemma EntriesPush(s: seq<Tally>, c: Tally, t: Tid)
    ensures Entries(s + [c], t) == Entries(s, t) + if c.tid == t then [c] else []
  {
    assert (s + [c])[..|s|] == s;
  }

  lemma {:induction false} EntriesBar(s: seq<Tally>, t: Tid, u: Tid)
    ensures Entries(BarTallyList(s, u), t) ==
            if u == t then BarTallyList(Entries(s, t), t) else Entries(s, t)
  {
    if s == [] {
    } else {
      var k := |s| - 1;
      EntriesBar(s[..k], t, u);
      assert BarTallyList(s, u) == BarTallyList(s[..k], u) + [BarTally(s[k], u)];
      EntriesPush(BarTallyList(s[..k], u), BarTally(s[k], u), t);
    }
  }

  ghost function CountEach(s: seq<Tally>, t: Tid, m: Marks): seq<Tally> {
    seq(|s|, i requires 0 <= i < |s| => CountOne(s[i], t, m))
  }

  lemma {:induction false} EntriesCountEach(s: seq<Tally>, t: Tid, u: Tid, m: Marks)
    ensures Entries(CountEach(s, u, m), t) ==
            if u == t then CountEach(Entries(s, t), t, m) else Entries(s, t)
  {
    if s == [] {
    } else {
      var k := |s| - 1;
      EntriesCountEach(s[..k], t, u, m);
      CountEachPush(s[..k], s[k], u, m);
      assert s == s[..k] + [s[k]];
      EntriesPush(CountEach(s[..k], u, m), CountOne(s[k], u, m), t);
      EntriesPush(s[..k], s[k], t);
      CountEachPush(Entries(s[..k], t), s[k], t, m);
    }
  }

  lemma CountEachPush(s: seq<Tally>, c: Tally, t: Tid, m: Marks)
    ensures CountEach(s + [c], t, m) == CountEach(s, t, m) + [CountOne(c, t, m)]
  {
  }

  lemma EntriesCount(s: seq<Tally>, t: Tid, u: Tid, m: Marks)
    ensures Entries(CountWrite(s, u, m), t) ==
            if u != t then Entries(s, t)
            else if Entries(s, t) == [] then [FirstTally(t, m)]
            else CountEach(Entries(s, t), t, m)
  {
    EntriesHas(s, u);
    if HasTally(s, u) {
      assert CountWrite(s, u, m) == CountEach(s, u, m);
      EntriesCountEach(s, t, u, m);
    } else {
      assert (s + [FirstTally(u, m)])[..|s|] == s;
    }
  }

  /** What one event does to the counters of t for v. */
  lemma EntriesStep(tb: Tables, e: Event, v: Addr, t: Tid)
    ensures var was, now := Entries(Get(tb.tallies, v), t), Entries(Get(Step(tb, e).tallies, v), t);
      now ==
        if e.tid != t then was
        else if e.PassesBarrier? then BarTallyList(was, t)
        else if e.Writes? && e.v == v && v !in tb.locks then
          (if was == [] then [FirstTally(t, MarksOf(tb.locks, t))] else CountEach(was, t, MarksOf(tb.locks, t)))
        else was
  {
    var s := Get(tb.tallies, v);
    StepTallies(tb, e, v);
    if e.PassesBarrier? {
      EntriesBar(s, t, e.tid);
    } else if e.Writes? && e.v == v && v !in tb.locks {
      EntriesCount(s, t, e.tid, MarksOf(tb.locks, e.tid));
    }
  }

  lemma StepTallies(tb: Tables, e: Event, v: Addr)
    ensures var s := Get(tb.tallies, v);
      Get(Step(tb, e).tallies, v) ==
        if e.PassesBarrier? then BarTallyList(s, e.tid)
        else if e.Writes? && e.v == v && v !in tb.locks then CountWrite(s, e.tid, MarksOf(tb.locks, e.tid))
        else s
  {
  }

  /** The two flags that sort a write, read off the log. */
  lemma MarksInLog(log: seq<Event>, t: Tid)
    ensures MarksOf(Run(log).locks, t).synced <==> Guarded(log, t)
    ensures MarksOf(Run(log).locks, t).barred <==> Passes(log, t)
  {
    MarksMean(Run(log).locks, t);
    SyncedIff(log, t);
    BarredIff(log, t);
  }

  /** What the last event does to the counters of t for v, read off the log. */
  lemma MineStep(log: seq<Event>, v: Addr, t: Tid)
    requires log != []
    ensures var was, now, m := Mine(Earlier(log), v, t), Mine(log, v, t), MarksOf(Run(Earlier(log)).locks, t);
      now ==
        if Last(log).PassesBarrier? && Last(log).tid == t then BarTallyList(was, t)
        else if LastHits(log, v, t) then (if was == [] then [FirstTally(t, m)] else CountEach(was, t, m))
        else was
  {
    assert log[..|log| - 1] == Earlier(log);
    if Last(log).Writes? {
      TrackedIff(log, |log| - 1);
    }
    EntriesStep(Run(Earlier(log)), Last(log), v, t);
  }

  lemma MineTid(log: seq<Event>, v: Addr, t: Tid)
    ensures forall c :: c in Mine(log, v, t) ==> c.tid == t
  {
    EntriesTid(Get(Run(log).tallies, v), t);
  }

  /** The counters after the first tracked write of v by t. */
  lemma FirstCounts(log: seq<Event>, v: Addr, t: Tid)
    requires log != [] && LastHits(log, v, t) && !Wrote(Earlier(log), v, t) && TalliesMatch(Earlier(log), v, t)
    ensures TalliesMatch(log, v, t)
  {
    MineStep(log, v, t);
    MarksInLog(Earlier(log), t);
    NothingCounted(Earlier(log), v, t);
    assert BeforeFirst(log, v, t) == Earlier(log);
  }

  /** The counters after one more. */
  lemma HitCounts(log: seq<Event>, v: Addr, t: Tid)
    requires log != [] && LastHits(log, v, t) && Wrote(Earlier(log), v, t) && TalliesMatch(Earlier(log), v, t)
    ensures TalliesMatch(log, v, t)
  {
    MineStep(log, v, t);
    MineTid(Earlier(log), v, t);
    MarksInLog(Earlier(log), t);
    FirstKept(log, v, t);
  }

  lemma FirstKept(log: seq<Event>, v: Addr, t: Tid)
    requires log != [] && Wrote(Earlier(log), v, t)
    ensures Wrote(log, v, t)
    ensures FirstPlain(log, v, t) == FirstPlain(Earlier(log), v, t)
    ensures FirstBoth(log, v, t) == FirstBoth(Earlier(log), v, t)
  {
  }

  lemma {:induction false} EntriesTid(s: seq<Tally>, t: Tid)
    ensures forall c :: c in Entries(s, t) ==> c.tid == t
  {
    if s == [] {
    } else {
      EntriesTid(s[..|s| - 1], t);
    }
  }

  lemma {:induction false} NothingCounted(log: seq<Event>, v: Addr, t: Tid)
    requires !Wrote(log, v, t)
    ensures SyncedWrites(log, v, t) == BarrierWrites(log, v, t) == PlainWrites(log, v, t) == 0
    ensures BarriersSince(log, v, t) == 0
  {
    if log == [] {
    } else {
      NothingCounted(Earlier(log), v, t);
    }
  }

  /** The counters after a barrier. */
  lemma BarrierCounts(log: seq<Event>, v: Addr, t: Tid)
    requires log != [] && Last(log).PassesBarrier? && Last(log).tid == t && TalliesMatch(Earlier(log), v, t)
    ensures TalliesMatch(log, v, t)
  {
    MineStep(log, v, t);
    MineTid(Earlier(log), v, t);
    if Wrote(Earlier(log), v, t) {
      FirstKept(log, v, t);
    }
  }

  /** No other event touches these counters. */
  lemma OtherCounts(log: seq<Event>, v: Addr, t: Tid)
    requires log != [] && !LastHits(log, v, t) && TalliesMatch(Earlier(log), v, t)
    requires !(Last(log).PassesBarrier? && Last(log).tid == t)
    ensures TalliesMatch(log, v, t)
  {
    MineStep(log, v, t);
    if Wrote(Earlier(log), v, t) {
      FirstKept(log, v, t);
    }
  }

  lemma {:induction false} TalliesCount(log: seq<Event>, v: Addr, t: Tid)
    ensures TalliesMatch(log, v, t)
  {
    if log == [] {
    } else {
      TalliesCount(Earlier(log), v, t);
      if LastHits(log, v, t) {
        if Wrote(Earlier(log), v, t) {
          HitCounts(log, v, t);
        } else {
          FirstCounts(log, v, t);
        }
      } else if Last(log).PassesBarrier? && Last(log).tid == t {
        BarrierCounts(log, v, t);
      } else {
        OtherCounts(log, v, t);
      }
    }
  }

  predicate HasThread(s: seq<IndexRec>, t: Tid) {
    exists i :: 0 <= i < |s| && s[i].tid == t
  }

  lemma HasThreadPush(s: seq<IndexRec>, r: IndexRec, t: Tid)
    ensures HasThread(s + [r], t) <==> HasThread(s, t) || r.tid == t
  {
    var now := s + [r];
    if i :| 0 <= i < |s| && s[i].tid == t {
      assert now[i].tid == t;
    }
    if r.tid == t {
      assert now[|s|].tid == t;
    }
  }

  lemma HasThreadBar(s: seq<IndexRec>, t: Tid, u: Tid, b: Addr)
    ensures HasThread(BarList(s, u, b), t) <==> HasThread(s, t)
  {
    var now := BarList(s, u, b);
    if i :| 0 <= i < |s| && s[i].tid == t {
      assert now[i].tid == t;
    }
  }

  lemma HasThreadStep(tb: Tables, e: Event, v: Addr, t: Tid)
    ensures HasThread(Get(Step(tb, e).index, v), t) <==>
            HasThread(Get(tb.index, v), t) || (e.Writes? && e.v == v && e.tid == t && v !in tb.locks)
  {
    var s := Get(tb.index, v);
    match e {
      case PassesBarrier(u, b) =>
        assert Get(Step(tb, e).index, v) == BarList(s, u, b);
        HasThreadBar(s, t, u, b);
      case Writes(u, x) =>
        if x == v && v !in tb.locks {
          HasThreadPush(s, IndexRec(u, MarksOf(tb.locks, u).how), t);
        }
      case _ =>
    }
  }

  /** The threads with counters for v are the threads with records in `globalinmap[v]`. */
  lemma {:induction false} WroteIff(log: seq<Event>, v: Addr, t: Tid)
    ensures Wrote(log, v, t) <==> HasThread(Get(Run(log).index, v), t)
  {
    if log == [] {
    } else {
      WroteIff(Earlier(log), v, t);
      HasThreadStep(Run(Earlier(log)), Last(log), v, t);
      assert log[..|log| - 1] == Earlier(log);
      if Last(log).Writes? {
        TrackedIff(log, |log| - 1);
      }
    }
  }

  // ---------- The counts as numbers of entries ----------

  ghost predicate WroteAt(log: seq<Event>, v: Addr, t: Tid, i: nat) {
    i < |log| && Tracked(log, i) && log[i].v == v && log[i].tid == t
  }

  lemma WroteAtEarlier(log: seq<Event>, v: Addr, t: Tid, i: nat)
    requires i < |log| - 1
    ensures WroteAt(log, v, t, i) <==> WroteAt(Earlier(log), v, t, i)
  {
    assert Earlier(log)[..i] == log[..i];
  }

  lemma {:induction false} WroteFound(log: seq<Event>, v: Addr, t: Tid) returns (i: nat)
    ensures Wrote(log, v, t) ==> WroteAt(log, v, t, i)
    ensures !Wrote(log, v, t) ==> forall n: nat :: !WroteAt(log, v, t, n)
  {
    i := 0;
    if log == [] {
    } else {
      i := WroteFound(Earlier(log), v, t);
      forall n: nat | n < |log| - 1
        ensures WroteAt(log, v, t, n) <==> WroteAt(Earlier(log), v, t, n)
      {
        WroteAtEarlier(log, v, t, n);
      }
      if LastHits(log, v, t) {
        i := |log| - 1;
      }
    }
  }

  /** Tracked writes of v by t made while t was guarded or not, and past a barrier or not. */
  ghost function WritesWhile(log: seq<Event>, v: Addr, t: Tid, guarded: bool, barred: bool): set<nat> {
    set i: nat | i < |log| && WroteAt(log, v, t, i)
                 && Guarded(log[..i], t) == guarded && (guarded || Passes(log[..i], t) == barred)
  }

  lemma WritesWhileStep(log: seq<Event>, v: Addr, t: Tid, guarded: bool, barred: bool)
    requires log != []
    ensures var n, was := |log| - 1, WritesWhile(Earlier(log), v, t, guarded, barred);
      && n !in was
      && WritesWhile(log, v, t, guarded, barred) ==
         was + if LastHits(log, v, t) && Guarded(Earlier(log), t) == guarded
                  && (guarded || Passes(Earlier(log), t) == barred) then {n} else {}
  {
    assert log[..|log| - 1] == Earlier(log);
    forall i: nat | i < |log| - 1
      ensures i in WritesWhile(log, v, t, guarded, barred) <==> i in WritesWhile(Earlier(log), v, t, guarded, barred)
    {
      WroteAtEarlier(log, v, t, i);
      assert Earlier(log)[..i] == log[..i];
    }
  }

  /** The three classes of writes, as numbers of entries of the log. */
  lemma {:induction false} WritesAreSets(log: seq<Event>, v: Addr, t: Tid)
    ensures SyncedWrites(log, v, t) == |WritesWhile(log, v, t, true, false)|
    ensures BarrierWrites(log, v, t) == |WritesWhile(log, v, t, false, true)|
    ensures PlainWrites(log, v, t) == |WritesWhile(log, v, t, false, false)|
  {
    if log == [] {
    } else {
      WritesAreSets(Earlier(log), v, t);
      WritesWhileStep(log, v, t, true, false);
      WritesWhileStep(log, v, t, false, true);
      WritesWhileStep(log, v, t, false, false);
    }
  }

  /** The barriers that t passes after a tracked write of v. */
  ghost function BarrierSet(log: seq<Event>, v: Addr, t: Tid): set<nat> {
    set j: nat | j < |log| && log[j].PassesBarrier? && log[j].tid == t
                 && exists i: nat :: i < j && WroteAt(log, v, t, i)
  }

  lemma BarrierSetStep(log: seq<Event>, v: Addr, t: Tid)
    requires log != []
    ensures var n, was := |log| - 1, BarrierSet(Earlier(log), v, t);
      && n !in was
      && BarrierSet(log, v, t) ==
         was + if Wrote(Earlier(log), v, t) && Last(log).PassesBarrier? && Last(log).tid == t then {n} else {}
  {
    forall i: nat | i < |log| - 1
      ensures WroteAt(log, v, t, i) <==> WroteAt(Earlier(log), v, t, i)
    {
      WroteAtEarlier(log, v, t, i);
    }
    var i := WroteFound(Earlier(log), v, t);
    assert Wrote(Earlier(log), v, t) ==> WroteAt(log, v, t, i);
    forall j: nat | j < |log| - 1
      ensures j in BarrierSet(log, v, t) <==> j in BarrierSet(Earlier(log), v, t)
    {
      assert Earlier(log)[j] == log[j];
    }
  }

  lemma {:induction false} BarriersAreSet(log: seq<Event>, v: Addr, t: Tid)
    ensures BarriersSince(log, v, t) == |BarrierSet(log, v, t)|
  {
    if log == [] {
    } else {
      BarriersAreSet(Earlier(log), v, t);
      BarrierSetStep(log, v, t);
    }
  }

  /** The first tracked write of v by t, on which the corrections depend. */
  lemma {:induction false} FirstIs(log: seq<Event>, v: Addr, t: Tid, i: nat)
    requires WroteAt(log, v, t, i) && forall n: nat :: n < i ==> !WroteAt(log, v, t, n)
    ensures Wrote(log, v, t) && BeforeFirst(log, v, t) == log[..i]
  {
    var k := WroteFound(Earlier(log), v, t);
    if i == |log| - 1 {
      assert log[..i] == Earlier(log);
      forall n: nat | n < i
        ensures !WroteAt(Earlier(log), v, t, n)
      {
        WroteAtEarlier(log, v, t, n);
      }
    } else {
      WroteAtEarlier(log, v, t, i);
      forall n: nat | n < i
        ensures !WroteAt(Earlier(log), v, t, n)
      {
        WroteAtEarlier(log, v, t, n);
      }
      FirstIs(Earlier(log), v, t, i);
      assert Earlier(log)[..i] == log[..i];
    }
  }

  // ---------- The order of the counters ----------

  /** Thread t has a tracked write of v before u ever does. */
  ghost predicate WroteFirst(log: seq<Event>, v: Addr, t: Tid, u: Tid) {
    exists i: nat :: WroteAt(log, v, t, i) && forall n: nat :: n <= i ==> !WroteAt(log, v, u, n)
  }

  ghost function Tids(s: seq<Tally>): seq<Tid> {
    seq(|s|, i requires 0 <= i < |s| => s[i].tid)
  }

  lemma StepTids(tb: Tables, e: Event, v: Addr)
    ensures var s := Get(tb.tallies, v);
      Tids(Get(Step(tb, e).tallies, v)) ==
        Tids(s) + if e.Writes? && e.v == v && v !in tb.locks && !HasTally(s, e.tid) then [e.tid] else []
  {
    StepTallies(tb, e, v);
  }

  lemma WroteFirstKept(log: seq<Event>, v: Addr, t: Tid, u: Tid)
    requires log != [] && WroteFirst(Earlier(log), v, t, u)
    ensures WroteFirst(log, v, t, u)
  {
    var i: nat :| WroteAt(Earlier(log), v, t, i) && forall n: nat :: n <= i ==> !WroteAt(Earlier(log), v, u, n);
    WroteAtEarlier(log, v, t, i);
    forall n: nat | n <= i
      ensures !WroteAt(log, v, u, n)
    {
      WroteAtEarlier(log, v, u, n);
    }
  }

  lemma WroteFirstNew(log: seq<Event>, v: Addr, t: Tid, u: Tid)
    requires log != [] && Wrote(Earlier(log), v, t) && !Wrote(Earlier(log), v, u)
    ensures WroteFirst(log, v, t, u)
  {
    var i := WroteFound(Earlier(log), v, t);
    var j := WroteFound(Earlier(log), v, u);
    WroteAtEarlier(log, v, t, i);
    forall n: nat | n <= i
      ensures !WroteAt(log, v, u, n)
    {
      WroteAtEarlier(log, v, u, n);
    }
  }

  lemma {:induction false} EntriesOfTid(s: seq<Tally>, t: Tid)
    ensures t in Tids(s) <==> Entries(s, t) != []
  {
    if s == [] {
    } else {
      EntriesOfTid(s[..|s| - 1], t);
      assert Tids(s) == Tids(s[..|s| - 1]) + [s[|s| - 1].tid];
    }
  }

  lemma HasTallyIff(log: seq<Event>, v: Addr, t: Tid)
    ensures HasTally(Get(Run(log).tallies, v), t) <==> Wrote(log, v, t)
    ensures t in Tids(Get(Run(log).tallies, v)) <==> Wrote(log, v, t)
  {
    TalliesCount(log, v, t);
    EntriesHas(Get(Run(log).tallies, v), t);
    EntriesOfTid(Get(Run(log).tallies, v), t);
  }

  ghost predicate InWriteOrder(log: seq<Event>, v: Addr, ts: seq<Tid>) {
    forall x, y :: 0 <= x < y < |ts| ==> WroteFirst(log, v, ts[x], ts[y])
  }

  lemma InWriteOrderStep(log: seq<Event>, v: Addr, was: seq<Tid>, now: seq<Tid>)
    requires log != [] && InWriteOrder(Earlier(log), v, was)
    requires now == was || exists u :: now == was + [u] && !Wrote(Earlier(log), v, u)
    requires forall t :: t in was ==> Wrote(Earlier(log), v, t)
    ensures InWriteOrder(log, v, now)
  {
    forall x, y | 0 <= x < y < |now|
      ensures WroteFirst(log, v, now[x], now[y])
    {
      assert was[x] in was;
      if y < |was| {
        WroteFirstKept(log, v, was[x], was[y]);
      } else {
        WroteFirstNew(log, v, was[x], now[y]);
      }
    }
  }

  /** The entries of `cglobalinmap[v]` stand in the order in which their threads first wrote v. */
  lemma {:induction false} TalliesInOrder(log: seq<Event>, v: Addr)
    ensures InWriteOrder(log, v, Tids(Get(Run(log).tallies, v)))
  {
    if log == [] {
    } else {
      var before := Earlier(log);
      var was, now := Tids(Get(Run(before).tallies, v)), Tids(Get(Run(log).tallies, v));
      TalliesInOrder(before, v);
      StepTids(Run(before), Last(log), v);
      forall t
        ensures t in was <==> Wrote(before, v, t)
      {
        HasTallyIff(before, v, t);
      }
      HasTallyIff(before, v, Last(log).tid);
      assert now == was || now == was + [Last(log).tid];
      InWriteOrderStep(log, v, was, now);
    }
  }
}
