/** The per-variable index is a view of the global write log, after every event. */
module IndexFacts {
  import opened Trace
  import opened Replay

  /** The records of the write log for one variable, in order. */
  ghost function Project(ws: seq<WriteRec>, v: Addr): seq<IndexRec> {
    if ws == [] then []
    else
      var w := ws[|ws| - 1];
      Project(ws[..|ws| - 1], v) + if w.v == v then [IndexRec(w.tid, w.how)] else []
  }

  ghost predicate Agrees(tb: Tables) {
    forall v :: AgreesOn(tb, v)
  }

  /** Relabelling by a barrier commutes with taking one variable's records. */
  lemma {:induction false} ProjectBar(ws: seq<WriteRec>, v: Addr, t: Tid, b: Addr)
    ensures Project(BarWrites(ws, t, b), v) == BarList(Project(ws, v), t, b)
  {
    if ws == [] {
    } else {
      var n := |ws| - 1;
      ProjectBar(ws[..n], v, t, b);
      assert BarWrites(ws, t, b)[..n] == BarWrites(ws[..n], t, b);
    }
  }

  lemma ProjectPush(ws: seq<WriteRec>, w: WriteRec, v: Addr)
    ensures Project(ws + [w], v) == Project(ws, v) + if w.v == v then [IndexRec(w.tid, w.how)] else []
  {
    assert (ws + [w])[..|ws|] == ws;
  }

  ghost predicate AgreesOn(tb: Tables, v: Addr) {
    Get(tb.index, v) == Project(tb.writes, v) && (v in tb.index <==> Project(tb.writes, v) != [])
  }

  lemma AgreesPush(tb: Tables, now: Tables, w: WriteRec, v: Addr)
    requires AgreesOn(tb, v)
    requires now.writes == tb.writes + [w] && now.index == Push(tb.index, w.v, IndexRec(w.tid, w.how))
    ensures AgreesOn(now, v)
  {
    ProjectPush(tb.writes, w, v);
  }

  lemma AgreesBar(tb: Tables, now: Tables, t: Tid, b: Addr, v: Addr)
    requires AgreesOn(tb, v)
    requires now.writes == BarWrites(tb.writes, t, b) && now.index == BarIndex(tb.index, t, b)
    ensures AgreesOn(now, v)
  {
    ProjectBar(tb.writes, v, t, b);
    assert Get(now.index, v) == BarList(Get(tb.index, v), t, b);
  }

  lemma StepAgreesOn(tb: Tables, e: Event, v: Addr)
    requires AgreesOn(tb, v)
    ensures AgreesOn(Step(tb, e), v)
  {
    match e {
      case PassesBarrier(t, b) => AgreesBar(tb, Step(tb, e), t, b, v);
      case Writes(t, x) =>
        if x !in tb.locks {
          AgreesPush(tb, Step(tb, e), WriteRec(t, x, MarksOf(tb.locks, t).how), v);
        }
      case _ =>
    }
  }

  lemma StepAgrees(tb: Tables, e: Event)
    requires Agrees(tb)
    ensures Agrees(Step(tb, e))
  {
    forall v
      ensures AgreesOn(Step(tb, e), v)
    {
      assert AgreesOn(tb, v);
      StepAgreesOn(tb, e, v);
    }
  }

  /** After every replay prefix, `globalinmap[v]` is the subsequence of `globalmap` for v. */
  lemma {:induction false} IndexAgrees(log: seq<Event>)
    ensures Agrees(Run(log))
  {
    if log == [] {
    } else {
      IndexAgrees(Earlier(log));
      StepAgrees(Run(Earlier(log)), Last(log));
    }
  }

  /** What one event does to the index list of v. */
  lemma StepIndex(tb: Tables, e: Event, v: Addr)
    ensures var s := Get(tb.index, v);
      Get(Step(tb, e).index, v) ==
        if e.PassesBarrier? then BarList(s, e.tid, e.bar)
        else if e.Writes? && e.v == v && v !in tb.locks then s + [IndexRec(e.tid, MarksOf(tb.locks, e.tid).how)]
        else s
  {
  }

  /** A record of a variable in the index is a record of the write log, and conversely. */
  lemma {:induction false} ProjectMembers(ws: seq<WriteRec>, v: Addr, r: IndexRec)
    ensures r in Project(ws, v) <==> WriteRec(r.tid, v, r.how) in ws
  {
    if ws == [] {
    } else {
      ProjectMembers(ws[..|ws| - 1], v, r);
      assert ws == ws[..|ws| - 1] + [ws[|ws| - 1]];
    }
  }
}
