/** The creation graph that the replay builds is a tree. */
module CreateTree {
  import opened Ordered
  import opened Trace
  import opened Replay
  import opened Recorder

  /** A thread calls create only after it has itself been numbered; thread 0 is there from the start. */
  ghost predicate ParentsNumbered(log: seq<Event>) {
    log != [] ==>
      && ParentsNumbered(Earlier(log))
      && (Last(log).Creates? ==> Last(log).tid <= NumCreates(Earlier(log)))
  }

  /** p's list in `createmap` contains c. */
  predicate Created(log: seq<Event>, p: Tid, c: Tid) {
    c in Get(Run(log).created, p)
  }

  lemma CreatedStep(log: seq<Event>, p: Tid)
    requires log != []
    ensures Get(Run(log).created, p) ==
            Get(Run(Earlier(log)).created, p) +
            if Last(log).Creates? && Last(log).tid == p then [Last(log).child] else []
  {
    StepCreated(Run(Earlier(log)), Last(log), p);
  }

  lemma StepCreated(tb: Tables, e: Event, p: Tid)
    ensures Get(Step(tb, e).created, p) == Get(tb.created, p) + if e.Creates? && e.tid == p then [e.child] else []
  {
  }

  ghost predicate HasCreator(log: seq<Event>, c: Tid) {
    exists p :: Created(log, p, c)
  }

  /** Together the lists hold each of 1..n exactly once. */
  lemma {:induction false} ListsHoldEachOnce(log: seq<Event>)
    requires Numbered(log)
    ensures forall p :: Rising(Get(Run(log).created, p))
    ensures forall p: Tid, c: Tid :: Created(log, p, c) ==> 1 <= c <= NumCreates(log)
    ensures forall p: Tid, q: Tid, c: Tid :: Created(log, p, c) && Created(log, q, c) ==> p == q
    ensures forall c: Tid :: 1 <= c <= NumCreates(log) ==> HasCreator(log, c)
  {
    if log == [] {
    } else {
      var before, e := Earlier(log), Last(log);
      ListsHoldEachOnce(before);
      forall p ensures Rising(Get(Run(log).created, p)) {
        CreatedStep(log, p);
        if e.Creates? && e.tid == p {
          assert forall c :: c in Get(Run(before).created, p) ==> Created(before, p, c);
          RisingPush(Get(Run(before).created, p), e.child);
        }
      }
      forall p: Tid, c: Tid
        ensures Created(log, p, c) <==> Created(before, p, c) || (e.Creates? && e.tid == p && e.child == c)
      {
        CreatedStep(log, p);
      }
      forall c: Tid | 1 <= c <= NumCreates(log)
        ensures HasCreator(log, c)
      {
        if c <= NumCreates(before) {
          assert HasCreator(before, c);
          var p :| Created(before, p, c);
          assert Created(log, p, c);
        } else {
          assert Created(log, e.tid, c);
        }
      }
    }
  }

  lemma {:induction false} ParentsSmaller(log: seq<Event>, p: Tid, c: Tid)
    requires Numbered(log) && ParentsNumbered(log) && Created(log, p, c)
    ensures p < c
  {
    if log == [] {
    } else {
      CreatedStep(log, p);
      if Created(Earlier(log), p, c) {
        ParentsSmaller(Earlier(log), p, c);
      }
    }
  }

  /** Consecutive elements are parent and child. */
  ghost predicate Descent(log: seq<Event>, path: seq<Tid>) {
    forall i :: 0 <= i < |path| - 1 ==> Created(log, path[i], path[i + 1])
  }

  /** The creation graph is a tree rooted at thread 0: every thread descends from 0 ... */
  lemma {:induction false} DescendsFromRoot(log: seq<Event>, c: Tid) returns (path: seq<Tid>)
    requires Numbered(log) && ParentsNumbered(log) && c <= NumCreates(log)
    ensures path != [] && path[0] == 0 && path[|path| - 1] == c && Descent(log, path)
  {
    if c == 0 {
      path := [0];
    } else {
      ListsHoldEachOnce(log);
      assert HasCreator(log, c);
      var p :| Created(log, p, c);
      ParentsSmaller(log, p, c);
      var above := DescendsFromRoot(log, p);
      path := above + [c];
    }
  }

  /** ... along one path only. */
  lemma {:induction false} DescentUnique(log: seq<Event>, a: seq<Tid>, b: seq<Tid>)
    requires Numbered(log) && ParentsNumbered(log)
    requires a != [] && b != [] && a[0] == b[0] == 0 && Descent(log, a) && Descent(log, b)
    requires a[|a| - 1] == b[|b| - 1]
    ensures a == b
    decreases |a|
  {
    ListsHoldEachOnce(log);
    if |a| > 1 {
      assert Created(log, a[|a| - 2], a[|a| - 1]);
    }
    if |b| > 1 {
      assert Created(log, b[|b| - 2], b[|b| - 1]);
    }
    if |a| == 1 || |b| == 1 {
    } else {
      var a', b' := a[..|a| - 1], b[..|b| - 1];
      DescentUnique(log, a', b');
      assert a == a' + [a[|a| - 1]] && b == b' + [b[|b| - 1]];
    }
  }
}
