/** The callbacks that look back at the log or number threads: create, condition wait and signal. */
module Recorder {
  import opened Basics
  import opened Trace

  /** The two fields of a log region that the signal callback reads. */
  datatype Region = Region(cond: Addr, mutexVar: Addr)

  /** Only waits and signals file a condition address; every other region has 0 there. */
  function Regions(e: Event): seq<Region> {
    match e
    case Waits(_, c, m) => [Region(0, 0), Region(c, m)]
    case Signals(_, c, m) => [Region(0, 0), Region(c, m)]
    case Requests(_, _, a) => [Region(0, 0), Region(0, a)]
    case Tries(_, a) => [Region(0, 0), Region(0, a)]
    case Acquires(_, _, a) => [Region(0, 0), Region(0, a)]
    case Unlocks(_, _, a) => [Region(0, 0), Region(0, a)]
    case Creates(_, _) => [Region(0, 0), Region(0, 0)]
    case Writes(_, _) => [Region(0, 0), Region(0, 0)]
    case PassesBarrier(_, _) => [Region(0, 0)]
    case Other(_) => [Region(0, 0)]
  }

  /** The mutex of the last region filed under c, in log order; what was there before if none is. */
  function LastIn(regions: seq<Region>, c: Addr, before: Addr): Addr {
    if regions == [] then before
    else
      var r := regions[|regions| - 1];
      if r.cond == c then r.mutexVar else LastIn(regions[..|regions| - 1], c, before)
  }

  function LastFiled(log: seq<Event>, c: Addr, before: Addr): Addr {
    if log == [] then before
    else LastIn(Regions(Last(log)), c, LastFiled(Earlier(log), c, before))
  }

  // ---------- What the log promises ----------

  ghost predicate WaitedOn(log: seq<Event>, c: Addr) {
    log != [] && ((Last(log).Waits? && Last(log).cond == c) || WaitedOn(Earlier(log), c))
  }

  /** The mutex of the most recent wait on c. */
  ghost function LatestWait(log: seq<Event>, c: Addr): Addr
    requires WaitedOn(log, c)
  {
    if Last(log).Waits? && Last(log).cond == c then Last(log).lock else LatestWait(Earlier(log), c)
  }

  /** Every signal on a nonzero condition already waited on names the mutex of the latest wait on it. */
  ghost predicate SignalsNameWaits(log: seq<Event>) {
    log != [] ==>
      && SignalsNameWaits(Earlier(log))
      && (Last(log).Signals? && Last(log).cond != 0 && WaitedOn(Earlier(log), Last(log).cond) ==>
            Last(log).lock == LatestWait(Earlier(log), Last(log).cond))
  }

  function NumCreates(log: seq<Event>): nat {
    if log == [] then 0
    else if Last(log).Creates? then NumCreates(Earlier(log)) + 1
    else NumCreates(Earlier(log))
  }

  /** Created threads are numbered 1, 2, 3, ... in log order. */
  ghost predicate Numbered(log: seq<Event>) {
    log != [] ==>
      && Numbered(Earlier(log))
      && (Last(log).Creates? ==> Last(log).child == NumCreates(Earlier(log)) + 1)
  }

  lemma LastInEvent(e: Event, c: Addr, before: Addr)
    requires c != 0
    ensures LastIn(Regions(e), c, before) == if (e.Waits? || e.Signals?) && e.cond == c then e.lock else before
  {
    var r := Regions(e);
    assert r[..|r| - 1] == if |r| == 1 then [] else [r[0]];
    assert LastIn([r[0]], c, before) == before by {
      assert [r[0]][..0] == [];
    }
  }

  /** Whether the last filed record is a wait or a signal that copied one, it is the latest wait's mutex. */
  lemma {:induction false} LastFiledIsLatestWait(log: seq<Event>, c: Addr, before: Addr)
    requires SignalsNameWaits(log) && c != 0 && WaitedOn(log, c)
    ensures LastFiled(log, c, before) == LatestWait(log, c)
  {
    var e := Last(log);
    LastInEvent(e, c, LastFiled(Earlier(log), c, before));
    if e.Waits? && e.cond == c {
    } else {
      LastFiledIsLatestWait(Earlier(log), c, before);
    }
  }

  // ---------- The same by positions of the log ----------

  /** Entry i is the last wait on c. */
  ghost predicate LastWait(log: seq<Event>, c: Addr, i: nat) {
    && i < |log| && log[i].Waits? && log[i].cond == c
    && forall j :: i < j < |log| ==> !(log[j].Waits? && log[j].cond == c)
  }

  predicate On(e: Event, c: Addr) {
    (e.Waits? || e.Signals?) && e.cond == c
  }

  /** Entry i is the last wait or signal on c. */
  ghost predicate LastOn(log: seq<Event>, c: Addr, i: nat) {
    i < |log| && On(log[i], c) && forall j :: i < j < |log| ==> !On(log[j], c)
  }

  lemma {:induction false} LatestWaitIs(log: seq<Event>, c: Addr, i: nat)
    requires LastWait(log, c, i)
    ensures WaitedOn(log, c) && LatestWait(log, c) == log[i].lock
  {
    if i == |log| - 1 {
    } else {
      assert LastWait(Earlier(log), c, i);
      LatestWaitIs(Earlier(log), c, i);
      assert !(Last(log).Waits? && Last(log).cond == c);
    }
  }

  /** What the scan finds: the mutex of the last wait or signal on c, or what was there before. */
  lemma {:induction false} LastFiledIs(log: seq<Event>, c: Addr, before: Addr) returns (at: Option<nat>)
    requires c != 0
    ensures match at
      case None => LastFiled(log, c, before) == before && forall i :: 0 <= i < |log| ==> !On(log[i], c)
      case Some(i) => LastOn(log, c, i) && LastFiled(log, c, before) == log[i].lock
  {
    if log == [] {
      at := None;
    } else {
      at := LastFiledIs(Earlier(log), c, before);
      LastInEvent(Last(log), c, LastFiled(Earlier(log), c, before));
      if On(Last(log), c) {
        at := Some(|log| - 1);
      } else {
        assert forall i :: 0 <= i < |log| - 1 ==> log[i] == Earlier(log)[i];
      }
    }
  }

  /** What a signal on c stores: the mutex of the last wait on c, or else of the last signal, or else nothing. */
  ghost predicate SignalRight(log: seq<Event>, c: Addr, unset: Addr, m: Addr) {
    && (forall i: nat :: LastWait(log, c, i) ==> m == log[i].lock)
    && (forall i: nat :: LastOn(log, c, i) ==> m == log[i].lock)
    && ((forall i :: 0 <= i < |log| ==> !On(log[i], c)) ==> m == unset)
  }

  lemma LastOnUnique(log: seq<Event>, c: Addr, i: nat, j: nat)
    requires LastOn(log, c, i) && LastOn(log, c, j)
    ensures i == j
  {
  }

  lemma FiledIsRight(log: seq<Event>, c: Addr, unset: Addr)
    requires SignalsNameWaits(log) && c != 0
    ensures SignalRight(log, c, unset, LastFiled(log, c, unset))
  {
    var at := LastFiledIs(log, c, unset);
    forall i: nat | LastWait(log, c, i)
      ensures LastFiled(log, c, unset) == log[i].lock
    {
      LatestWaitIs(log, c, i);
      LastFiledIsLatestWait(log, c, unset);
    }
    if at.Some? {
      forall i: nat | LastOn(log, c, i)
        ensures i == at.value
      {
        LastOnUnique(log, c, i, at.value);
      }
    }
  }

  /** The positions of the create entries. */
  ghost function CreateEntries(log: seq<Event>): set<nat> {
    set i: nat | i < |log| && log[i].Creates?
  }

  lemma CreateEntriesStep(log: seq<Event>)
    requires log != []
    ensures |log| - 1 !in CreateEntries(Earlier(log))
    ensures CreateEntries(log) == CreateEntries(Earlier(log)) + if Last(log).Creates? then {|log| - 1} else {}
  {
    forall i: nat | i < |log| - 1
      ensures log[i] == Earlier(log)[i]
    {
    }
  }

  /** The thread numbers given out so far are as many as the create entries. */
  lemma {:induction false} NumCreatesIs(log: seq<Event>)
    ensures NumCreates(log) == |CreateEntries(log)|
  {
    if log == [] {
      assert CreateEntries(log) == {};
    } else {
      NumCreatesIs(Earlier(log));
      CreateEntriesStep(log);
    }
  }

  class Log {
    var accessmap: seq<Event>
    var td: nat

    ghost predicate Valid()
      reads this
    {
      SignalsNameWaits(accessmap) && Numbered(accessmap) && td == NumCreates(accessmap)
    }

    constructor ()
      ensures Valid() && accessmap == []
    {
      accessmap, td := [], 0;
    }

    method Create(t: Tid)
      requires Valid()
      modifies this
      ensures Valid() && accessmap == old(accessmap) + [Creates(t, old(td) + 1)]
      ensures old(td) == |CreateEntries(old(accessmap))|
    {
      NumCreatesIs(accessmap);
      td := td + 1;
      accessmap := accessmap + [Creates(t, td)];
      assert Earlier(accessmap) == old(accessmap);
    }

    method CondWait(t: Tid, c: Addr, m: Addr)
      requires Valid()
      modifies this`accessmap
      ensures Valid() && accessmap == old(accessmap) + [Waits(t, c, m)]
    {
      accessmap := accessmap + [Waits(t, c, m)];
      assert Earlier(accessmap) == old(accessmap);
    }

    /** `unset` is what the fields of the new region hold before the scan finds a match. */
    method CondSignal(t: Tid, c: Addr, unset: Addr)
      requires Valid()
      modifies this`accessmap
      ensures Valid()
      ensures accessmap == old(accessmap) + [Signals(t, c, LastFiled(old(accessmap), c, unset))]
      ensures c != 0 ==> SignalRight(old(accessmap), c, unset, Last(accessmap).lock)
    {
      var m := unset;
      for i := 0 to |accessmap|
        invariant m == LastFiled(accessmap[..i], c, unset)
      {
        assert Earlier(accessmap[..i + 1]) == accessmap[..i] && Last(accessmap[..i + 1]) == accessmap[i];
        var regions, before := Regions(accessmap[i]), m;
        for j := 0 to |regions|
          invariant m == LastIn(regions[..j], c, before)
        {
          assert regions[..j + 1][..j] == regions[..j];
          if regions[j].cond == c {
            m := regions[j].mutexVar;
          }
        }
        assert regions[..|regions|] == regions;
      }
      assert accessmap[..|accessmap|] == accessmap;
      if c != 0 {
        FiledIsRight(accessmap, c, unset);
      }
      if c != 0 && WaitedOn(accessmap, c) {
        LastFiledIsLatestWait(accessmap, c, unset);
      }
      accessmap := accessmap + [Signals(t, c, m)];
      assert Earlier(accessmap) == old(accessmap);
    }

    /** Any other callback appends its entry. */
    method Append(e: Event)
      requires Valid() && !e.Creates? && !e.Signals?
      modifies this`accessmap
      ensures Valid() && accessmap == old(accessmap) + [e]
    {
      accessmap := accessmap + [e];
      assert Earlier(accessmap) == old(accessmap);
    }
  }
}
