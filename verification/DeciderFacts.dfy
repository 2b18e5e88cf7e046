/** What the verdicts mean, for every log. */
module DeciderFacts {
  import opened Basics
  import opened Ordered
  import opened Trace
  import opened Replay
  import opened IndexFacts
  import opened LogFacts
  import opened LabelFacts
  import opened Deciders

  /** `glist` after replaying the log and splitting the variables. */
  ghost function Shared(log: seq<Event>): seq<Addr> {
    SharedVars(Run(log).index)
  }

  ghost predicate WrittenBy(log: seq<Event>, v: Addr, t: Tid) {
    exists i: nat :: i < |log| && Tracked(log, i) && log[i].v == v && log[i].tid == t
  }

  lemma NonEmptyLists(log: seq<Event>)
    ensures NoEmptyLists(Run(log).index)
  {
    IndexAgrees(log);
    forall v | v in Run(log).index ensures Run(log).index[v] != [] {
      assert AgreesOn(Run(log), v);
    }
  }

  /** The records of v in the index are the final records of the tracked writes of v. */
  lemma IndexMembers(log: seq<Event>, v: Addr, r: IndexRec)
    ensures r in Get(Run(log).index, v) <==> exists i: nat :: MadeAt(log, i, WriteRec(r.tid, v, r.how))
  {
    IndexAgrees(log);
    assert AgreesOn(Run(log), v);
    ProjectMembers(Run(log).writes, v, r);
    WritesMembers(log, WriteRec(r.tid, v, r.how));
  }

  lemma IndexMember(log: seq<Event>, i: nat) returns (r: IndexRec)
    requires i < |log| && Tracked(log, i)
    ensures r == IndexRec(log[i].tid, FinalLabel(log, i))
    ensures log[i].v in Run(log).index && r in Run(log).index[log[i].v]
  {
    r := IndexRec(log[i].tid, FinalLabel(log, i));
    IndexMembers(log, log[i].v, r);
    assert MadeAt(log, i, WriteRec(r.tid, log[i].v, r.how));
  }

  lemma IndexOrigin(log: seq<Event>, v: Addr, r: IndexRec) returns (i: nat)
    requires r in Get(Run(log).index, v)
    ensures i < |log| && Tracked(log, i) && log[i].v == v && log[i].tid == r.tid && FinalLabel(log, i) == r.how
    ensures WrittenBy(log, v, r.tid)
  {
    IndexMembers(log, v, r);
    i :| MadeAt(log, i, WriteRec(r.tid, v, r.how));
  }

  lemma RecordOf(log: seq<Event>, v: Addr, t: Tid) returns (r: IndexRec)
    requires WrittenBy(log, v, t)
    ensures v in Run(log).index && r in Run(log).index[v] && r.tid == t
  {
    var i: nat :| i < |log| && Tracked(log, i) && log[i].v == v && log[i].tid == t;
    r := IndexMember(log, i);
  }

  // ---------- Shared and local variables ----------

  lemma SharedWriters(log: seq<Event>, v: Addr) returns (t: Tid, u: Tid)
    requires v in Shared(log)
    ensures t != u && WrittenBy(log, v, t) && WrittenBy(log, v, u)
  {
    var s := Run(log).index[v];
    var i, j :| 0 <= i < |s| && 0 <= j < |s| && s[i].tid != s[j].tid;
    var _ := IndexOrigin(log, v, s[i]);
    var _ := IndexOrigin(log, v, s[j]);
    t, u := s[i].tid, s[j].tid;
  }

  lemma TwoWritersShare(log: seq<Event>, v: Addr, t: Tid, u: Tid)
    requires t != u && WrittenBy(log, v, t) && WrittenBy(log, v, u)
    ensures v in Shared(log)
  {
    var a := RecordOf(log, v, t);
    var b := RecordOf(log, v, u);
    var s := Run(log).index[v];
    var m :| 0 <= m < |s| && s[m] == a;
    var n :| 0 <= n < |s| && s[n] == b;
    assert TwoWriters(s);
  }

  /** A variable is shared iff two different threads have tracked writes of it. */
  lemma SharedIff(log: seq<Event>, v: Addr)
    ensures v in Shared(log) <==> exists t, u :: t != u && WrittenBy(log, v, t) && WrittenBy(log, v, u)
  {
    if v in Shared(log) {
      var t, u := SharedWriters(log, v);
    }
    if t, u :| t != u && WrittenBy(log, v, t) && WrittenBy(log, v, u) {
      TwoWritersShare(log, v, t, u);
    }
  }

  /** Shared and local variables partition the variables of the index; a local one has one writer. */
  lemma SplitPartitions(log: seq<Event>, v: Addr)
    ensures NoEmptyLists(Run(log).index)
    ensures var local := LocalVars(Run(log).index, Run(log).index.Keys);
      && (v in Run(log).index <==> v in Shared(log) || v in local)
      && !(v in Shared(log) && v in local)
      && (v in local ==> |local[v]| == 1 && forall t :: WrittenBy(log, v, t) <==> t == local[v][0])
  {
    NonEmptyLists(log);
    var index := Run(log).index;
    var local := LocalVars(index, index.Keys);
    if v in local {
      var s := index[v];
      forall t
        ensures WrittenBy(log, v, t) <==> t == local[v][0]
      {
        if WrittenBy(log, v, t) {
          var r := RecordOf(log, v, t);
          var n :| 0 <= n < |s| && s[n] == r;
          assert s[n].tid == s[0].tid;
        }
        if t == local[v][0] {
          var i := IndexOrigin(log, v, s[0]);
        }
      }
    }
  }

  /** Every shared variable has two records, so the access report never says "partitioned". */
  lemma NeverPartitioned(log: seq<Event>)
    ensures Shared(log) != [] ==>
      exists v :: v in Shared(log) && v in Run(log).index && |Run(log).index[v]| >= 2
  {
    if Shared(log) != [] {
      var v := Shared(log)[0];
      assert v in Shared(log);
      var s := Run(log).index[v];
      var i, j :| 0 <= i < |s| && 0 <= j < |s| && s[i].tid != s[j].tid;
      assert |s| >= 2;
    }
  }

  // ---------- The safety verdict ----------

  /**
   The tracked write at entry i is left unlabelled: its thread then has no request or try that is
   unanswered, or was first answered as a semaphore or an rw-lock, and it never passes a barrier.
   */
  ghost predicate Bare(log: seq<Event>, i: nat) {
    i < |log| && Tracked(log, i) && !Guarded(log[..i], log[i].tid) && !Passes(log, log[i].tid)
  }

  /** Some tracked write of a shared variable is, or is not, bare. */
  ghost predicate SharedWrite(log: seq<Event>, bare: bool) {
    exists i: nat :: i < |log| && Tracked(log, i) && log[i].v in Shared(log) && Bare(log, i) == bare
  }

  lemma SharedWriteIff(log: seq<Event>, bare: bool)
    ensures SharedWrite(log, bare) <==> SomeShared(Run(log).index, Shared(log), !bare)
  {
    var index, shared := Run(log).index, Shared(log);
    if i: nat :| i < |log| && Tracked(log, i) && log[i].v in shared && Bare(log, i) == bare {
      var r := IndexMember(log, i);
      UnsyncedIff(log, i);
      assert log[i].v in shared && r in index[log[i].v] && (r.how.sync != Unsynced) == !bare;
      assert SomeRecord(index[log[i].v], !bare);
    }
    if v :| v in shared && v in index && SomeRecord(index[v], !bare) {
      var r: IndexRec :| r in index[v] && (r.how.sync != Unsynced) == !bare;
      var i := IndexOrigin(log, v, r);
      UnsyncedIff(log, i);
      assert Bare(log, i) == bare;
    }
  }

  /**
   The verdict read off the log: 0 iff no variable has two writers; 3 iff one has and no write of a
   shared variable is bare; 2 iff some are bare and some are not; 1 iff all are bare.
   */
  lemma VerdictIff(log: seq<Event>)
    ensures var r := Verdict(Run(log).index, Shared(log));
      && (r == 0 <==> Shared(log) == [])
      && (r == 3 <==> Shared(log) != [] && !SharedWrite(log, true))
      && (r == 2 <==> SharedWrite(log, true) && SharedWrite(log, false))
      && (r == 1 <==> SharedWrite(log, true) && !SharedWrite(log, false))
  {
    SharedWriteIff(log, true);
    SharedWriteIff(log, false);
  }

  /** If every writer of every shared variable passes some barrier, the verdict is 3, or 0. */
  lemma BarriersMakeSafe(log: seq<Event>)
    requires forall v, t :: v in Shared(log) && WrittenBy(log, v, t) ==> Passes(log, t)
    ensures Verdict(Run(log).index, Shared(log)) == if Shared(log) == [] then 0 else 3
  {
    VerdictIff(log);
    forall i: nat | i < |log| && Tracked(log, i) && log[i].v in Shared(log)
      ensures !Bare(log, i)
    {
      assert WrittenBy(log, log[i].v, log[i].tid);
    }
  }

  // ---------- Updates by creators ----------

  /**
   `does_update` is 1 iff a thread that created another has a write record on a shared variable;
   the outer scan of the log for writes never changes the answer.
   */
  lemma UpdateScanRedundant(log: seq<Event>)
    ensures var tb := Run(log);
      (exists e, p :: e in log && e.Writes? && p in RegionTids(e) && p in tb.created
                      && Updates(tb.index, Shared(log), p))
      <==> exists p :: p in tb.created && Updates(tb.index, Shared(log), p)
  {
    var tb := Run(log);
    if p :| p in tb.created && Updates(tb.index, Shared(log), p) {
      var v, r :| v in Shared(log) && v in tb.index && r in tb.index[v] && r.tid == p;
      var i := IndexOrigin(log, v, r);
      assert log[i] in log && log[i].Writes? && p in RegionTids(log[i]);
    }
  }

  lemma {:induction false} CreatedIff(log: seq<Event>, p: Tid)
    ensures p in Run(log).created <==> exists e :: e in log && e.Creates? && e.tid == p
  {
    if log == [] {
    } else {
      CreatedIff(Earlier(log), p);
      StepCreates(Run(Earlier(log)), Last(log), p);
      assert log == Earlier(log) + [Last(log)];
      assert Last(log) in log;
      assert forall e :: e in Earlier(log) ==> e in log;
    }
  }

  lemma StepCreates(tb: Tables, e: Event, p: Tid)
    ensures p in Step(tb, e).created <==> p in tb.created || (e.Creates? && e.tid == p)
  {
  }

  /** The same in terms of the log alone. */
  lemma DoesUpdateIff(log: seq<Event>)
    ensures (exists p :: p in Run(log).created && Updates(Run(log).index, Shared(log), p)) <==>
            exists v, p :: v in Shared(log) && WrittenBy(log, v, p) && exists e :: e in log && e.Creates? && e.tid == p
  {
    var tb := Run(log);
    if p :| p in tb.created && Updates(tb.index, Shared(log), p) {
      var v, r :| v in Shared(log) && v in tb.index && r in tb.index[v] && r.tid == p;
      var i := IndexOrigin(log, v, r);
      CreatedIff(log, p);
    }
    if v, p :| v in Shared(log) && WrittenBy(log, v, p) && exists e :: e in log && e.Creates? && e.tid == p {
      CreatedIff(log, p);
      var r := RecordOf(log, v, p);
      assert Updates(tb.index, Shared(log), p);
    }
  }

  // ---------- The index, record by record ----------

  /** Those of the positions that write v, in order. */
  ghost function OfVar(log: seq<Event>, at: seq<nat>, v: Addr): (r: seq<nat>)
    requires WritesAt(log, at)
    ensures WritesAt(log, r)
  {
    if at == [] then []
    else OfVar(log, at[..|at| - 1], v) + if log[at[|at| - 1]].v == v then [at[|at| - 1]] else []
  }

  ghost function FinalIndexRecs(log: seq<Event>, at: seq<nat>): seq<IndexRec>
    requires WritesAt(log, at)
  {
    seq(|at|, k requires 0 <= k < |at| => IndexRec(log[at[k]].tid, FinalLabel(log, at[k])))
  }

  lemma {:induction false} OfVarMembers(log: seq<Event>, at: seq<nat>, v: Addr, i: nat)
    requires WritesAt(log, at)
    ensures i in OfVar(log, at, v) <==> i in at && log[i].v == v
  {
    if at == [] {
    } else {
      OfVarMembers(log, at[..|at| - 1], v, i);
      assert at == at[..|at| - 1] + [at[|at| - 1]];
    }
  }

  lemma {:induction false} OfVarRises(log: seq<Event>, at: seq<nat>, v: Addr)
    requires WritesAt(log, at) && Rising(at)
    ensures Rising(OfVar(log, at, v))
  {
    if at == [] {
    } else {
      var before, n := at[..|at| - 1], at[|at| - 1];
      OfVarRises(log, before, v);
      forall i | i in OfVar(log, before, v)
        ensures i < n
      {
        OfVarMembers(log, before, v, i);
      }
      if log[n].v == v {
        RisingPush(OfVar(log, before, v), n);
      }
    }
  }

  lemma FinalIndexPush(log: seq<Event>, at: seq<nat>, n: nat)
    requires WritesAt(log, at) && n < |log| && log[n].Writes?
    ensures WritesAt(log, at + [n])
    ensures FinalIndexRecs(log, at + [n]) == FinalIndexRecs(log, at) + [IndexRec(log[n].tid, FinalLabel(log, n))]
  {
  }

  lemma {:induction false} ProjectFinal(log: seq<Event>, at: seq<nat>, v: Addr)
    requires WritesAt(log, at)
    ensures Project(FinalRecs(log, at), v) == FinalIndexRecs(log, OfVar(log, at, v))
  {
    if at == [] {
    } else {
      var before, n := at[..|at| - 1], at[|at| - 1];
      ProjectFinal(log, before, v);
      assert at == before + [n];
      FinalRecsPush(log, before, n);
      ProjectPush(FinalRecs(log, before), FinalRec(log, n), v);
      if log[n].v == v {
        FinalIndexPush(log, OfVar(log, before, v), n);
        assert OfVar(log, at, v) == OfVar(log, before, v) + [n];
      } else {
        assert OfVar(log, at, v) == OfVar(log, before, v);
      }
    }
  }

  /** The positions of the tracked writes of v, ascending. */
  ghost predicate VarAt(log: seq<Event>, v: Addr, at: seq<nat>) {
    WritesAt(log, at) && Rising(at) && forall i: nat :: i in at <==> i < |log| && Tracked(log, i) && log[i].v == v
  }

  /** `globalinmap[v]` in closed form: the tracked writes of v in log order, each with its final label. */
  lemma IndexClosedForm(log: seq<Event>, v: Addr) returns (at: seq<nat>)
    ensures VarAt(log, v, at) && Get(Run(log).index, v) == FinalIndexRecs(log, at)
  {
    var all := TrackedWrites(log);
    WritesClosedForm(log);
    at := OfVar(log, all, v);
    assert Get(Run(log).index, v) == FinalIndexRecs(log, at) by {
      IndexAgrees(log);
      assert AgreesOn(Run(log), v);
      ProjectFinal(log, all, v);
    }
    TrackedRise(log);
    OfVarRises(log, all, v);
    forall i: nat
      ensures i in at <==> i < |log| && Tracked(log, i) && log[i].v == v
    {
      OfVarMembers(log, all, v, i);
      TrackedPositions(log, i);
    }
  }

  // ---------- Access counts ----------

  lemma HitsPush(s: seq<IndexRec>, r: IndexRec, t: Tid)
    ensures Hits(s + [r], t) == Hits(s, t) + if r.tid == t then 1 else 0
  {
    assert (s + [r])[..|s|] == s;
  }

  lemma HitsStep(tb: Tables, e: Event, v: Addr, t: Tid)
    ensures Hits(Get(Step(tb, e).index, v), t) ==
            Hits(Get(tb.index, v), t) + if e.Writes? && e.v == v && e.tid == t && v !in tb.locks then 1 else 0
  {
    var s := Get(tb.index, v);
    StepIndex(tb, e, v);
    if e.PassesBarrier? {
      HitsBar(s, t, e.tid, e.bar);
    } else if e.Writes? && e.v == v && v !in tb.locks {
      HitsPush(s, IndexRec(e.tid, MarksOf(tb.locks, e.tid).how), t);
    }
  }

  lemma {:induction false} HitsBar(s: seq<IndexRec>, t: Tid, u: Tid, b: Addr)
    ensures Hits(BarList(s, u, b), t) == Hits(s, t)
  {
    if s == [] {
    } else {
      var k := |s| - 1;
      HitsBar(s[..k], t, u, b);
      assert BarList(s, u, b)[..k] == BarList(s[..k], u, b);
    }
  }

  /** The positions of the tracked writes of v by t. */
  ghost function WriteSet(log: seq<Event>, v: Addr, t: Tid): set<nat> {
    set i: nat | i < |log| && Tracked(log, i) && log[i].v == v && log[i].tid == t
  }

  lemma TrackedEarlier(log: seq<Event>, i: nat)
    requires i < |log| - 1
    ensures Tracked(log, i) == Tracked(Earlier(log), i) && log[i] == Earlier(log)[i]
  {
    assert Earlier(log)[..i] == log[..i];
  }

  lemma WriteSetStep(log: seq<Event>, v: Addr, t: Tid)
    requires log != []
    ensures var n := |log| - 1;
      WriteSet(log, v, t) ==
        WriteSet(Earlier(log), v, t) + if Tracked(log, n) && log[n].v == v && log[n].tid == t then {n} else {}
  {
    forall i: nat | i < |log| - 1
      ensures i in WriteSet(log, v, t) <==> i in WriteSet(Earlier(log), v, t)
    {
      TrackedEarlier(log, i);
    }
  }

  /** The records of t in the index list of v are as many as its tracked writes of v. */
  lemma {:induction false} HitsInLog(log: seq<Event>, v: Addr, t: Tid)
    ensures Hits(Get(Run(log).index, v), t) == |WriteSet(log, v, t)|
  {
    if log == [] {
    } else {
      HitsInLog(Earlier(log), v, t);
      HitsStep(Run(Earlier(log)), Last(log), v, t);
      WriteSetStep(log, v, t);
      assert |log| - 1 !in WriteSet(Earlier(log), v, t);
      assert log[..|log| - 1] == Earlier(log);
      if Last(log).Writes? {
        TrackedIff(log, |log| - 1);
      }
    }
  }

  lemma SharedRises(log: seq<Event>)
    ensures Rising(Shared(log))
  {
  }

  lemma {:induction false} CountRepeat(u: Addr, n: nat, v: Addr)
    ensures multiset(Repeat(u, n))[v] == if v == u then n else 0
  {
    if n == 0 {
      assert Repeat(u, 0) == [];
    } else {
      CountRepeat(u, n - 1, v);
      assert Repeat(u, n) == Repeat(u, n - 1) + [u];
    }
  }

  /** How often a variable is on a thread's access list. */
  lemma {:induction false} CountInList(index: Index, vars: seq<Addr>, t: Tid, v: Addr)
    requires Rising(vars)
    ensures multiset(AccessList(index, vars, t))[v] == if v in vars then Hits(Get(index, v), t) else 0
  {
    if vars == [] {
    } else {
      var before, u := vars[..|vars| - 1], vars[|vars| - 1];
      CountInList(index, before, t, v);
      CountRepeat(u, Hits(Get(index, u), t), v);
      assert vars == before + [u];
      assert forall x :: x in before ==> x < u;
    }
  }

  ghost predicate NeverFalls(s: seq<Addr>) {
    forall i, j :: 0 <= i < j < |s| ==> s[i] <= s[j]
  }

  lemma NeverFallsRepeat(s: seq<Addr>, u: Addr, n: nat)
    requires NeverFalls(s) && forall i :: 0 <= i < |s| ==> s[i] <= u
    ensures NeverFalls(s + Repeat(u, n))
  {
  }

  /** A thread's access list ascends, so that equal variables stand together. */
  lemma {:induction false} ListNeverFalls(index: Index, vars: seq<Addr>, t: Tid)
    requires Rising(vars)
    ensures NeverFalls(AccessList(index, vars, t))
    ensures forall v :: v in AccessList(index, vars, t) ==> v in vars
  {
    if vars == [] {
    } else {
      var before, u := vars[..|vars| - 1], vars[|vars| - 1];
      var s := AccessList(index, before, t);
      ListNeverFalls(index, before, t);
      forall i | 0 <= i < |s|
        ensures s[i] < u
      {
        assert s[i] in before;
      }
      NeverFallsRepeat(s, u, Hits(Get(index, u), t));
      assert vars == before + [u];
    }
  }

  /** The positions of the tracked writes of the listed variables by t. */
  ghost function WritesAmong(log: seq<Event>, vars: seq<Addr>, t: Tid): set<nat> {
    set i: nat | i < |log| && Tracked(log, i) && log[i].v in vars && log[i].tid == t
  }

  /** The access count of a thread is the number of its tracked writes of the listed variables. */
  lemma {:induction false} AccessCountInLog(log: seq<Event>, vars: seq<Addr>, t: Tid)
    requires Rising(vars)
    ensures AccessCount(Run(log).index, vars, t) == |WritesAmong(log, vars, t)|
  {
    if vars == [] {
      assert WritesAmong(log, vars, t) == {};
    } else {
      var before, u := vars[..|vars| - 1], vars[|vars| - 1];
      AccessCountInLog(log, before, t);
      HitsInLog(log, u, t);
      assert vars == before + [u];
      WritesAmongPush(log, before, u, t);
    }
  }

  lemma WritesAmongPush(log: seq<Event>, vars: seq<Addr>, u: Addr, t: Tid)
    requires u !in vars
    ensures |WritesAmong(log, vars + [u], t)| == |WritesAmong(log, vars, t)| + |WriteSet(log, u, t)|
  {
    assert WritesAmong(log, vars + [u], t) == WritesAmong(log, vars, t) + WriteSet(log, u, t);
    assert WritesAmong(log, vars, t) !! WriteSet(log, u, t);
  }

  /** The access list of a thread is as long as its access count. */
  lemma {:induction false} AccessListLength(index: Index, vars: seq<Addr>, t: Tid)
    ensures |AccessList(index, vars, t)| == AccessCount(index, vars, t)
  {
    if vars == [] {
    } else {
      AccessListLength(index, vars[..|vars| - 1], t);
    }
  }

  ghost function SumCounts(index: Index, vars: seq<Addr>, ts: seq<Tid>): nat {
    if ts == [] then 0
    else SumCounts(index, vars, ts[..|ts| - 1]) + AccessCount(index, vars, ts[|ts| - 1])
  }

  ghost function SumHits(s: seq<IndexRec>, ts: seq<Tid>): nat {
    if ts == [] then 0
    else SumHits(s, ts[..|ts| - 1]) + Hits(s, ts[|ts| - 1])
  }

  ghost function TotalRecords(index: Index, vars: seq<Addr>): nat {
    if vars == [] then 0
    else TotalRecords(index, vars[..|vars| - 1]) + |Get(index, vars[|vars| - 1])|
  }

  lemma {:induction false} SumHitsPush(s: seq<IndexRec>, r: IndexRec, ts: seq<Tid>)
    requires Distinct(ts)
    ensures SumHits(s + [r], ts) == SumHits(s, ts) + if r.tid in ts then 1 else 0
  {
    if ts == [] {
    } else {
      var k := |ts| - 1;
      SumHitsPush(s, r, ts[..k]);
      assert (s + [r])[..|s|] == s;
      assert ts == ts[..k] + [ts[k]];
    }
  }

  lemma {:induction false} SumHitsIsLength(s: seq<IndexRec>, ts: seq<Tid>)
    requires Distinct(ts) && forall r :: r in s ==> r.tid in ts
    ensures SumHits(s, ts) == |s|
  {
    if s == [] {
      SumHitsNone(ts);
    } else {
      var k := |s| - 1;
      SumHitsIsLength(s[..k], ts);
      assert s == s[..k] + [s[k]];
      SumHitsPush(s[..k], s[k], ts);
    }
  }

  lemma {:induction false} SumHitsNone(ts: seq<Tid>)
    ensures SumHits([], ts) == 0
  {
    if ts == [] {
    } else {
      SumHitsNone(ts[..|ts| - 1]);
    }
  }

  lemma {:induction false} SumSwap(index: Index, vars: seq<Addr>, ts: seq<Tid>)
    requires vars != []
    ensures SumCounts(index, vars, ts) ==
            SumCounts(index, vars[..|vars| - 1], ts) + SumHits(Get(index, vars[|vars| - 1]), ts)
  {
    if ts == [] {
    } else {
      SumSwap(index, vars, ts[..|ts| - 1]);
    }
  }

  lemma {:induction false} SumCountsNone(index: Index, ts: seq<Tid>)
    ensures SumCounts(index, [], ts) == 0
  {
    if ts == [] {
    } else {
      SumCountsNone(index, ts[..|ts| - 1]);
    }
  }

  /** The access counts of all threads add up to the number of records of shared variables. */
  lemma {:induction false} CountsAddUp(index: Index, vars: seq<Addr>, ts: seq<Tid>)
    requires Distinct(ts)
    requires forall v, r :: v in vars && r in Get(index, v) ==> r.tid in ts
    ensures SumCounts(index, vars, ts) == TotalRecords(index, vars)
  {
    if vars == [] {
      SumCountsNone(index, ts);
    } else {
      var k := |vars| - 1;
      assert vars == vars[..k] + [vars[k]];
      CountsAddUp(index, vars[..k], ts);
      SumSwap(index, vars, ts);
      SumHitsIsLength(Get(index, vars[k]), ts);
    }
  }
}
