/**
 The replay loop of `Fini`, in place. Every method states the new tables as a function of the old
 ones; the meaning of those functions is proved in the other modules.
 */
module Analyzer {
  import opened Ordered
  import opened Trace
  import opened Replay

  // The state of a loop over a `std::map` when the listed keys have been visited.

  ghost function MoveSome(locks: LockTable, done: seq<Addr>, t: Tid, a: Addr, from: int, to: int): LockTable {
    map k | k in locks :: if k in done then MoveList(locks[k], t, a, from, to) else locks[k]
  }

  lemma MoveSomeStep(locks: LockTable, done: seq<Addr>, k: Addr, t: Tid, a: Addr, from: int, to: int)
    requires k in locks && k !in done
    ensures var now := MoveSome(locks, done, t, a, from, to);
      k in now && now[k] == locks[k]
      && MoveSome(locks, done + [k], t, a, from, to) == now[k := MoveList(locks[k], t, a, from, to)]
  {
  }

  ghost function RelabelSome(index: Index, done: seq<Addr>, t: Tid, b: Addr): Index {
    map v | v in index :: if v in done then BarList(index[v], t, b) else index[v]
  }

  lemma RelabelSomeStep(index: Index, done: seq<Addr>, v: Addr, t: Tid, b: Addr)
    requires v in index && v !in done
    ensures var now := RelabelSome(index, done, t, b);
      v in now && now[v] == index[v]
      && RelabelSome(index, done + [v], t, b) == now[v := BarList(index[v], t, b)]
  {
  }

  ghost function BumpSome(tallies: Tallies, done: seq<Addr>, t: Tid): Tallies {
    map v | v in tallies :: if v in done then BarTallyList(tallies[v], t) else tallies[v]
  }

  lemma BumpSomeStep(tallies: Tallies, done: seq<Addr>, v: Addr, t: Tid)
    requires v in tallies && v !in done
    ensures var now := BumpSome(tallies, done, t);
      v in now && now[v] == tallies[v]
      && BumpSome(tallies, done + [v], t) == now[v := BarTallyList(tallies[v], t)]
  {
  }

  class Tool {
    var locks: LockTable
    var writes: seq<WriteRec>
    var index: Index
    var tallies: Tallies
    var created: map<Tid, seq<Tid>>

    function View(): Tables
      reads this
    {
      Tables(locks, writes, index, tallies, created)
    }

    constructor ()
      ensures View() == NO_TABLES
    {
      locks, writes, index, tallies, created := map[], [], map[], map[], map[];
    }

    method Replay(log: seq<Event>)
      requires View() == NO_TABLES
      modifies this
      ensures View() == Run(log)
    {
      for i := 0 to |log|
        invariant View() == Run(log[..i])
      {
        assert Earlier(log[..i + 1]) == log[..i] && Last(log[..i + 1]) == log[i];
        Apply(log[i]);
      }
      assert log[..|log|] == log;
    }

    method Apply(e: Event)
      modifies this
      ensures View() == Step(old(View()), e)
    {
      match e {
        case PassesBarrier(t, b) =>
          AddLockRecord(LockRec(t, BARRIER_PASSED, b));
          RelabelWrites(t, b);
          RelabelIndex(t, b);
          BumpBarrierCounts(t);
        case Requests(t, _, a) => AddLockRecord(LockRec(t, REQUESTED, a));
        case Tries(t, a) => AddLockRecord(LockRec(t, REQUESTED, a));
        case Acquires(t, kind, a) => ChangeFlags(t, a, REQUESTED, HeldFlag(kind));
        case Unlocks(t, kind, a) =>
          if kind != Semaphore {
            ChangeFlags(t, a, HELD, RELEASED);
          }
        case Creates(t, c) =>
          if t !in created {
            created := created[t := [c]];
            assert [] + [c] == [c];
          } else {
            created := created[t := created[t] + [c]];
          }
        case Writes(t, v) => RecordWrite(t, v);
        case Waits(_, _, _) =>
        case Signals(_, _, _) =>
        case Other(_) =>
      }
    }

    method AddLockRecord(r: LockRec)
      modifies this`locks
      ensures locks == Push(old(locks), r.addr, r)
    {
      if r.addr !in locks {
        locks := locks[r.addr := [r]];
        assert [] + [r] == [r];
      } else {
        locks := locks[r.addr := locks[r.addr] + [r]];
      }
    }

    method ChangeFlags(t: Tid, a: Addr, from: int, to: int)
      modifies this`locks
      ensures locks == MoveFlags(old(locks), t, a, from, to)
    {
      ghost var m := locks;
      var keys := KeysInOrder(locks.Keys);
      for i := 0 to |keys|
        invariant locks == MoveSome(m, keys[..i], t, a, from, to)
      {
        RisingFresh(keys, i);
        MoveSomeStep(m, keys[..i], keys[i], t, a, from, to);
        var s := ChangeFlagsInList(locks[keys[i]], t, a, from, to);
        locks := locks[keys[i] := s];
      }
      assert keys[..|keys|] == keys;
    }

    static method ChangeFlagsInList(s: seq<LockRec>, t: Tid, a: Addr, from: int, to: int) returns (r: seq<LockRec>)
      ensures r == MoveList(s, t, a, from, to)
    {
      r := s;
      for j := 0 to |r|
        invariant |r| == |s|
        invariant forall n :: 0 <= n < j ==> r[n] == MoveFlag(s[n], t, a, from, to)
        invariant forall n :: j <= n < |r| ==> r[n] == s[n]
      {
        if r[j].tid == t && r[j].addr == a && r[j].flag == from {
          r := r[j := r[j].(flag := to)];
        }
      }
    }

    method RelabelWrites(t: Tid, b: Addr)
      modifies this`writes
      ensures writes == BarWrites(old(writes), t, b)
    {
      for i := 0 to |writes|
        invariant |writes| == |old(writes)|
        invariant forall n :: 0 <= n < i ==> writes[n] == BarWrite(old(writes)[n], t, b)
        invariant forall n :: i <= n < |writes| ==> writes[n] == old(writes)[n]
      {
        if writes[i].tid == t {
          var l := writes[i].how;
          writes := writes[i := writes[i].(how := l.(mutexVar := b, when := Before, sync := ByBarrier))];
        }
      }
    }

    method RelabelIndex(t: Tid, b: Addr)
      modifies this`index
      ensures index == BarIndex(old(index), t, b)
    {
      ghost var m := index;
      var keys := KeysInOrder(index.Keys);
      for i := 0 to |keys|
        invariant index == RelabelSome(m, keys[..i], t, b)
      {
        RisingFresh(keys, i);
        RelabelSomeStep(m, keys[..i], keys[i], t, b);
        var s := RelabelList(index[keys[i]], t, b);
        index := index[keys[i] := s];
      }
      assert keys[..|keys|] == keys;
    }

    static method RelabelList(s: seq<IndexRec>, t: Tid, b: Addr) returns (r: seq<IndexRec>)
      ensures r == BarList(s, t, b)
    {
      r := s;
      for j := 0 to |r|
        invariant |r| == |s|
        invariant forall n :: 0 <= n < j ==> r[n] == BarIndexRec(s[n], t, b)
        invariant forall n :: j <= n < |r| ==> r[n] == s[n]
      {
        if r[j].tid == t {
          r := r[j := r[j].(how := r[j].how.(mutexVar := b, when := Before, sync := ByBarrier))];
        }
      }
    }

    method BumpBarrierCounts(t: Tid)
      modifies this`tallies
      ensures tallies == BarTallies(old(tallies), t)
    {
      ghost var m := tallies;
      var keys := KeysInOrder(tallies.Keys);
      for i := 0 to |keys|
        invariant tallies == BumpSome(m, keys[..i], t)
      {
        RisingFresh(keys, i);
        BumpSomeStep(m, keys[..i], keys[i], t);
        var s := BumpList(tallies[keys[i]], t);
        tallies := tallies[keys[i] := s];
      }
      assert keys[..|keys|] == keys;
    }

    static method BumpList(s: seq<Tally>, t: Tid) returns (r: seq<Tally>)
      ensures r == BarTallyList(s, t)
    {
      r := s;
      for j := 0 to |r|
        invariant |r| == |s|
        invariant forall n :: 0 <= n < j ==> r[n] == BarTally(s[n], t)
        invariant forall n :: j <= n < |r| ==> r[n] == s[n]
      {
        if r[j].tid == t {
          r := r[j := r[j].(bcount := r[j].bcount + 1)];
        }
      }
    }

    /** The scan of the lock table that labels a write. */
    method CollectMarks(t: Tid) returns (m: Marks)
      ensures m == MarksOf(locks, t)
    {
      m := UNMARKED;
      var keys := KeysInOrder(locks.Keys);
      for i := 0 to |keys|
        invariant m == MarkKeys(UNMARKED, locks, keys[..i], t)
      {
        m := CollectMarksInList(m, locks[keys[i]], t);
        assert keys[..i + 1][..i] == keys[..i];
      }
      assert keys[..|keys|] == keys;
      AscendingUnique(keys, locks.Keys);
    }

    static method CollectMarksInList(before: Marks, s: seq<LockRec>, t: Tid) returns (m: Marks)
      ensures m == MarkList(before, s, t)
    {
      m := before;
      for j := 0 to |s|
        invariant m == MarkList(before, s[..j], t)
      {
        var r := s[j];
        assert s[..j + 1][..j] == s[..j];
        if r.tid == t && r.flag == REQUESTED {
          m := Marks(m.how.(mutexVar := r.addr, sync := ByMutex), true, m.barred);
        }
        if r.tid == t && r.flag == SEM_HELD {
          m := Marks(m.how.(semVar := r.addr, sync := BySemaphore), true, m.barred);
        }
        if r.tid == t && r.flag == RW_HELD {
          m := Marks(m.how.(mutexVar := r.addr, sync := ByRwLock), true, m.barred);
        } else if r.tid == t && r.flag == BARRIER_PASSED {
          m := Marks(m.how.(mutexVar := r.addr, when := After, sync := ByBarrier), m.synced, true);
        }
      }
      assert s[..|s|] == s;
    }

    method BumpWriteCount(v: Addr, t: Tid, m: Marks)
      modifies this`tallies
      ensures tallies == old(tallies)[v := CountWrite(Get(old(tallies), v), t, m)]
    {
      if v !in tallies {
        tallies := tallies[v := [FirstTally(t, m)]];
        assert [] + [FirstTally(t, m)] == [FirstTally(t, m)];
      } else {
        var s := BumpWriteCountInList(tallies[v], t, m);
        tallies := tallies[v := s];
      }
    }

    static method BumpWriteCountInList(s: seq<Tally>, t: Tid, m: Marks) returns (r: seq<Tally>)
      ensures r == CountWrite(s, t, m)
    {
      r := s;
      var found := false;
      for i := 0 to |r|
        invariant |r| == |s|
        invariant found <==> exists n :: 0 <= n < i && s[n].tid == t
        invariant forall n :: 0 <= n < i ==> r[n] == CountOne(s[n], t, m)
        invariant forall n :: i <= n < |r| ==> r[n] == s[n]
      {
        if r[i].tid == t {
          if m.synced {
            r := r[i := r[i].(scount := r[i].scount + 1)];
          } else if m.barred {
            r := r[i := r[i].(bcount := r[i].bcount + 1)];
          } else {
            r := r[i := r[i].(count := r[i].count + 1)];
          }
          found := true;
        }
      }
      if !found {
        assert r == s;
        r := r + [FirstTally(t, m)];
      }
    }

    method RecordWrite(t: Tid, v: Addr)
      modifies this`writes, this`index, this`tallies
      ensures View() == AddWrite(old(View()), t, v)
    {
      if v !in locks {
        var m := CollectMarks(t);
        writes := writes + [WriteRec(t, v, m.how)];
        BumpWriteCount(v, t, m);
        if v !in index {
          index := index[v := [IndexRec(t, m.how)]];
          assert [] + [IndexRec(t, m.how)] == [IndexRec(t, m.how)];
        } else {
          index := index[v := index[v] + [IndexRec(t, m.how)]];
        }
      }
    }
  }
}
