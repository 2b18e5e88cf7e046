/** A closed form, read off the log, for every record of the write log after the whole run. */
module LabelFacts {
  import opened Basics
  import opened Ordered
  import opened Trace
  import opened Replay
  import opened LockFacts
  import opened LogFacts

  /** Entry i of the log is a write that gets a record: no earlier entry names its address as a lock or barrier. */
  ghost predicate Tracked(log: seq<Event>, i: nat)
    requires i < |log|
  {
    log[i].Writes? && !NamesLock(log[..i], log[i].v)
  }

  /** The replay's own test: it looks the address up in the lock table. */
  lemma TrackedIff(log: seq<Event>, i: nat)
    requires i < |log| && log[i].Writes?
    ensures Tracked(log, i) <==> log[i].v !in Run(log[..i]).locks
  {
    LocksClosedForm(log[..i], log[i].v);
  }

  /** The positions of the tracked writes, ascending. */
  ghost function TrackedWrites(log: seq<Event>): seq<nat> {
    if log == [] then []
    else TrackedWrites(Earlier(log)) + if Tracked(log, |log| - 1) then [|log| - 1] else []
  }

  /** The last barrier that thread t passes after entry i. */
  ghost function BarrierAfter(log: seq<Event>, i: nat, t: Tid): Option<Addr> {
    if |log| <= i + 1 then None
    else if Last(log).PassesBarrier? && Last(log).tid == t then Some(Last(log).bar)
    else BarrierAfter(Earlier(log), i, t)
  }

  /** The label of the tracked write at entry i when the run is over. */
  ghost function FinalLabel(log: seq<Event>, i: nat): Label
    requires i < |log| && log[i].Writes?
  {
    var made := MarksOf(Run(log[..i]).locks, log[i].tid).how;
    match BarrierAfter(log, i, log[i].tid)
    case Some(b) => Label(b, made.semVar, Before, ByBarrier)
    case None => made
  }

  ghost function FinalRec(log: seq<Event>, i: nat): WriteRec
    requires i < |log| && log[i].Writes?
  {
    WriteRec(log[i].tid, log[i].v, FinalLabel(log, i))
  }

  lemma {:induction false} TrackedPositions(log: seq<Event>, i: nat)
    ensures i in TrackedWrites(log) <==> i < |log| && Tracked(log, i)
  {
    if log == [] {
    } else {
      TrackedPositions(Earlier(log), i);
      assert i < |log| - 1 ==> Earlier(log)[..i] == log[..i];
      assert log[..|log| - 1] == Earlier(log);
    }
  }

  lemma {:induction false} TrackedRise(log: seq<Event>)
    ensures Rising(TrackedWrites(log))
  {
    if log == [] {
    } else {
      TrackedRise(Earlier(log));
      forall i | i in TrackedWrites(Earlier(log))
        ensures i < |log| - 1
      {
        TrackedPositions(Earlier(log), i);
      }
      if Tracked(log, |log| - 1) {
        RisingPush(TrackedWrites(Earlier(log)), |log| - 1);
      }
    }
  }

  ghost predicate WritesAt(log: seq<Event>, at: seq<nat>) {
    forall j :: 0 <= j < |at| ==> at[j] < |log| && log[at[j]].Writes?
  }

  ghost function FinalRecs(log: seq<Event>, at: seq<nat>): seq<WriteRec>
    requires WritesAt(log, at)
  {
    seq(|at|, j requires 0 <= j < |at| => FinalRec(log, at[j]))
  }

  lemma FinalRecStep(log: seq<Event>, i: nat)
    requires |log| > 0 && i < |log| - 1 && log[i].Writes?
    ensures FinalRec(log, i) ==
            if Last(log).PassesBarrier? then BarWrite(FinalRec(Earlier(log), i), Last(log).tid, Last(log).bar)
            else FinalRec(Earlier(log), i)
  {
    assert Earlier(log)[..i] == log[..i];
  }

  lemma FinalRecsStep(log: seq<Event>, at: seq<nat>)
    requires log != [] && WritesAt(Earlier(log), at)
    ensures WritesAt(log, at)
    ensures FinalRecs(log, at) ==
            if Last(log).PassesBarrier? then BarWrites(FinalRecs(Earlier(log), at), Last(log).tid, Last(log).bar)
            else FinalRecs(Earlier(log), at)
  {
    forall j | 0 <= j < |at|
      ensures at[j] < |log| && log[at[j]].Writes?
    {
      assert Earlier(log)[at[j]] == log[at[j]];
    }
    forall j | 0 <= j < |at|
      ensures FinalRec(log, at[j]) ==
              if Last(log).PassesBarrier? then BarWrite(FinalRec(Earlier(log), at[j]), Last(log).tid, Last(log).bar)
              else FinalRec(Earlier(log), at[j])
    {
      FinalRecStep(log, at[j]);
    }
  }

  /** What one event does to the write log. */
  lemma StepWrites(tb: Tables, e: Event)
    ensures Step(tb, e).writes ==
            if e.PassesBarrier? then BarWrites(tb.writes, e.tid, e.bar)
            else if e.Writes? && e.v !in tb.locks then tb.writes + [WriteRec(e.tid, e.v, MarksOf(tb.locks, e.tid).how)]
            else tb.writes
  {
  }

  lemma FinalRecsPush(log: seq<Event>, at: seq<nat>, n: nat)
    requires WritesAt(log, at) && n < |log| && log[n].Writes?
    ensures WritesAt(log, at + [n])
    ensures FinalRecs(log, at + [n]) == FinalRecs(log, at) + [FinalRec(log, n)]
  {
  }

  lemma FinalRecOfLast(log: seq<Event>)
    requires log != [] && Last(log).Writes?
    ensures FinalRec(log, |log| - 1) ==
            WriteRec(Last(log).tid, Last(log).v, MarksOf(Run(Earlier(log)).locks, Last(log).tid).how)
  {
    assert log[..|log| - 1] == Earlier(log);
  }

  /** What the last event does to the write log, read off the log. */
  lemma WritesStep(log: seq<Event>)
    requires log != []
    ensures var was, n := Run(Earlier(log)).writes, |log| - 1;
      Run(log).writes ==
        if Last(log).PassesBarrier? then BarWrites(was, Last(log).tid, Last(log).bar)
        else if Tracked(log, n) then was + [FinalRec(log, n)]
        else was
  {
    StepWrites(Run(Earlier(log)), Last(log));
    assert log[..|log| - 1] == Earlier(log);
    if Last(log).Writes? {
      TrackedIff(log, |log| - 1);
      FinalRecOfLast(log);
    }
  }

  /**
   The replayed write log is exactly the tracked writes in log order, each labelled as the lock
   table stood when it was made unless its thread passes a barrier later; then the last such
   barrier relabels it.
   */
  lemma {:induction false} WritesClosedForm(log: seq<Event>)
    ensures WritesAt(log, TrackedWrites(log))
    ensures Run(log).writes == FinalRecs(log, TrackedWrites(log))
  {
    if log == [] {
    } else {
      var at, n := TrackedWrites(Earlier(log)), |log| - 1;
      WritesClosedForm(Earlier(log));
      WritesStep(log);
      FinalRecsStep(log, at);
      if Tracked(log, n) {
        FinalRecsPush(log, at, n);
      }
    }
  }

  ghost predicate MadeAt(log: seq<Event>, i: nat, w: WriteRec) {
    i < |log| && Tracked(log, i) && FinalRec(log, i) == w
  }

  lemma RecordMade(log: seq<Event>, w: WriteRec) returns (i: nat)
    requires w in Run(log).writes
    ensures MadeAt(log, i, w)
  {
    WritesClosedForm(log);
    var at := TrackedWrites(log);
    var j :| 0 <= j < |Run(log).writes| && Run(log).writes[j] == w;
    i := at[j];
    assert i in at;
    TrackedPositions(log, i);
  }

  /** Membership form: the records are those of the tracked writes, no more and no fewer. */
  lemma WritesMembers(log: seq<Event>, w: WriteRec)
    ensures w in Run(log).writes <==> exists i: nat :: MadeAt(log, i, w)
  {
    if w in Run(log).writes {
      var i := RecordMade(log, w);
    }
    if i: nat :| MadeAt(log, i, w) {
      WritesClosedForm(log);
      TrackedPositions(log, i);
      var at := TrackedWrites(log);
      var j :| 0 <= j < |at| && at[j] == i;
      assert Run(log).writes[j] == w;
    }
  }

  /** Entry j is the last barrier that t passes, and it comes after entry i. */
  ghost predicate LastBarrier(log: seq<Event>, i: nat, t: Tid, j: nat) {
    && i < j < |log| && log[j].PassesBarrier? && log[j].tid == t
    && forall n :: j < n < |log| ==> !(log[n].PassesBarrier? && log[n].tid == t)
  }

  ghost predicate NoBarrierAfter(log: seq<Event>, i: nat, t: Tid) {
    forall j :: i < j < |log| ==> !(log[j].PassesBarrier? && log[j].tid == t)
  }

  /** The barrier that relabels a write is the last one its thread passes after it, if it passes one. */
  lemma {:induction false} BarrierAfterMeans(log: seq<Event>, i: nat, t: Tid) returns (j: nat)
    ensures match BarrierAfter(log, i, t)
      case None => NoBarrierAfter(log, i, t)
      case Some(b) => LastBarrier(log, i, t, j) && log[j].bar == b
  {
    j := 0;
    if |log| <= i + 1 {
    } else if Last(log).PassesBarrier? && Last(log).tid == t {
      j := |log| - 1;
    } else {
      var before := Earlier(log);
      j := BarrierAfterMeans(before, i, t);
      forall n | 0 <= n < |before|
        ensures before[n] == log[n]
      {
      }
      match BarrierAfter(before, i, t) {
        case None => assert NoBarrierAfter(log, i, t);
        case Some(_) => assert LastBarrier(log, i, t, j);
      }
    }
  }

  /** Passing a barrier at any time is passing one before entry i or after it. */
  lemma PassesAround(log: seq<Event>, i: nat, t: Tid)
    requires i < |log| && !log[i].PassesBarrier?
    ensures Passes(log, t) <==> Passes(log[..i], t) || BarrierAfter(log, i, t) != None
  {
    var b := BarrierAfterMeans(log, i, t);
    if j :| 0 <= j < |log| && log[j].PassesBarrier? && log[j].tid == t {
      assert j < i ==> log[..i][j] == log[j];
    }
    if j :| 0 <= j < i && log[..i][j].PassesBarrier? && log[..i][j].tid == t {
      assert log[j] == log[..i][j];
    }
  }

  /**
   When a record is left unlabelled: its thread was not guarded at the time and passes no barrier,
   before or after.
   */
  lemma UnsyncedIff(log: seq<Event>, i: nat)
    requires i < |log| && log[i].Writes?
    ensures FinalLabel(log, i).sync == Unsynced <==> !Guarded(log[..i], log[i].tid) && !Passes(log, log[i].tid)
  {
    UnlabelledIff(Run(log[..i]).locks, log[i].tid);
    SyncedIff(log[..i], log[i].tid);
    BarredIff(log[..i], log[i].tid);
    PassesAround(log, i, log[i].tid);
  }

  /** Once a thread passes a barrier, none of its write records, past or future, is unlabelled. */
  lemma BarrierLabelsThread(log: seq<Event>, t: Tid, w: WriteRec)
    requires Passes(log, t)
    requires w in Run(log).writes && w.tid == t
    ensures w.how.sync != Unsynced
  {
    var i := RecordMade(log, w);
    UnsyncedIff(log, i);
  }
}
