/**
 The grouping loops and deciders that run over the replayed tables: the split of variables into
 shared and single-writer ones, the per-thread access lists, and the verdicts.
 */
module Deciders {
  import opened Basics
  import opened Ordered
  import opened Trace
  import opened Replay

  // ---------- Specification ----------

  predicate TwoWriters(s: seq<IndexRec>) {
    exists i, j :: 0 <= i < |s| && 0 <= j < |s| && s[i].tid != s[j].tid
  }

  ghost function SharedSet(index: Index): set<Addr> {
    set v | v in index && TwoWriters(index[v])
  }

  /** `glist` after the split. */
  ghost function SharedVars(index: Index): seq<Addr> {
    Ascending(SharedSet(index))
  }

  /** `lmap` after the split, as far as the listed variables go: each with its only writer. */
  ghost function LocalVars(index: Index, vars: set<Addr>): map<Addr, seq<Tid>>
    requires NoEmptyLists(index)
  {
    map v | v in vars && v in index && !TwoWriters(index[v]) :: [index[v][0].tid]
  }

  /** The replay only files a variable when it has a record for it. */
  ghost predicate NoEmptyLists(index: Index) {
    forall v :: v in index ==> index[v] != []
  }

  /** Some record is labelled, or unlabelled. */
  ghost predicate SomeRecord(s: seq<IndexRec>, synced: bool) {
    exists r :: r in s && (r.how.sync != Unsynced) == synced
  }

  /** Some record of a shared variable is labelled, or unlabelled. */
  ghost predicate SomeShared(index: Index, shared: seq<Addr>, synced: bool) {
    exists v :: v in shared && v in index && SomeRecord(index[v], synced)
  }

  /** 0: nothing shared; 3: no unlabelled record; 2: both kinds; 1: only unlabelled records. */
  ghost function Verdict(index: Index, shared: seq<Addr>): int {
    if shared == [] then 0
    else if !SomeShared(index, shared, false) then 3
    else if SomeShared(index, shared, true) then 2
    else 1
  }

  /** Thread p has a write record on a shared variable. */
  ghost predicate Updates(index: Index, shared: seq<Addr>, p: Tid) {
    exists v, r :: v in shared && v in index && r in index[v] && r.tid == p
  }

  /** The two log regions of a write carry these thread ids. */
  function RegionTids(e: Event): seq<Tid> {
    [e.tid, 0]
  }

  ghost function Hits(s: seq<IndexRec>, t: Tid): nat {
    if s == [] then 0
    else if s[|s| - 1].tid == t then Hits(s[..|s| - 1], t) + 1
    else Hits(s[..|s| - 1], t)
  }

  /** Records of thread t over the listed variables. */
  ghost function AccessCount(index: Index, vars: seq<Addr>, t: Tid): nat {
    if vars == [] then 0
    else AccessCount(index, vars[..|vars| - 1], t) + Hits(Get(index, vars[|vars| - 1]), t)
  }

  ghost function Repeat(v: Addr, n: nat): seq<Addr> {
    seq(n, _ => v)
  }

  /** A thread is filed only when it has an access. */
  ghost predicate NoneEmpty(accessed: map<Tid, seq<Addr>>) {
    forall t :: t in accessed ==> accessed[t] != []
  }

  /** The access list of thread t: each listed variable as often as t wrote it, variable by variable. */
  ghost function AccessList(index: Index, vars: seq<Addr>, t: Tid): seq<Addr> {
    if vars == [] then []
    else
      var v := vars[|vars| - 1];
      AccessList(index, vars[..|vars| - 1], t) + Repeat(v, Hits(Get(index, v), t))
  }

  datatype Access = OnlyLocals | Overlapped | Partitioned

  // ---------- The loops ----------

  class Summary {
    var shared: seq<Addr>                // glist
    var local: map<Addr, seq<Tid>>       // lmap
    var accessed: map<Tid, seq<Addr>>    // imap

    constructor ()
      ensures shared == [] && local == map[] && accessed == map[]
    {
      shared, local, accessed := [], map[], map[];
    }

    /** Compares neighbours only, yet finds any two different writers. */
    static method NeighboursDiffer(s: seq<IndexRec>) returns (flag: bool)
      requires s != []
      ensures flag <==> TwoWriters(s)
    {
      flag := false;
      var td := s[0].tid;
      for i := 0 to |s|
        invariant td == if i == 0 then s[0].tid else s[i - 1].tid
        invariant flag ==> TwoWriters(s)
        invariant !flag ==> forall j :: 0 <= j < i ==> s[j].tid == s[0].tid
      {
        if td != s[i].tid {
          flag := true;
          assert i > 0 && s[i - 1].tid != s[i].tid;
        }
        td := s[i].tid;
      }
    }

    method SplitVariables(index: Index)
      requires shared == [] && local == map[]
      requires NoEmptyLists(index)
      modifies this`shared, this`local
      ensures shared == SharedVars(index)
      ensures local == LocalVars(index, index.Keys)
    {
      var keys := KeysInOrder(index.Keys);
      for i := 0 to |keys|
        invariant shared == SharedAmong(index, keys[..i])
        invariant local == LocalVars(index, set k | k in keys[..i])
      {
        FileVariable(keys[i], index[keys[i]]);
        SplitStep(index, keys[..i], keys[i]);
        assert keys[..i + 1] == keys[..i] + [keys[i]];
      }
      assert keys[..|keys|] == keys;
      SplitDone(index, keys);
    }

    method FileVariable(v: Addr, s: seq<IndexRec>)
      requires s != []
      modifies this`shared, this`local
      ensures shared == old(shared) + if TwoWriters(s) then [v] else []
      ensures local == if TwoWriters(s) then old(local) else old(local)[v := [s[0].tid]]
    {
      var flag := NeighboursDiffer(s);
      if flag {
        shared := shared + [v];
      }
      if !flag {
        local := local[v := [s[0].tid]];
      }
    }

    method BuildAccessLists(index: Index)
      requires accessed == map[]
      modifies this`accessed
      ensures forall t :: Get(accessed, t) == AccessList(index, shared, t)
      ensures NoneEmpty(accessed)
    {
      for i := 0 to |shared|
        invariant NoneEmpty(accessed)
        invariant forall t :: Get(accessed, t) == AccessList(index, shared[..i], t)
      {
        AppendVariable(index, shared[i]);
        assert shared[..i + 1][..i] == shared[..i];
      }
      assert shared[..|shared|] == shared;
    }

    method AppendVariable(index: Index, g: Addr)
      requires NoneEmpty(accessed)
      modifies this`accessed
      ensures NoneEmpty(accessed)
      ensures forall t :: Get(accessed, t) == Get(old(accessed), t) + Repeat(g, Hits(Get(index, g), t))
    {
      var keys := KeysInOrder(index.Keys);
      for k := 0 to |keys|
        invariant NoneEmpty(accessed)
        invariant g !in keys[..k] ==> accessed == old(accessed)
        invariant g in keys[..k] ==> g in index && Appended(old(accessed), accessed, g, index[g])
      {
        assert keys[..k + 1] == keys[..k] + [keys[k]];
        if g == keys[k] {
          assert g !in keys[..k];
          AppendAccesses(g, index[g]);
        }
      }
      assert keys[..|keys|] == keys;
      assert g !in index ==> forall t :: Repeat(g, Hits(Get(index, g), t)) == [];
    }

    method AppendAccesses(g: Addr, s: seq<IndexRec>)
      requires NoneEmpty(accessed)
      modifies this`accessed
      ensures NoneEmpty(accessed)
      ensures Appended(old(accessed), accessed, g, s)
    {
      ghost var before := accessed;
      AppendedNone(before, g);
      for n := 0 to |s|
        invariant Appended(before, accessed, g, s[..n]) && NoneEmpty(accessed)
      {
        AppendedNext(before, accessed, g, s, n);
        AppendAccess(s[n].tid, g);
      }
      assert s[..|s|] == s;
    }

    method AppendAccess(t: Tid, g: Addr)
      modifies this`accessed
      ensures accessed == Push(old(accessed), t, g)
    {
      if t !in accessed {
        accessed := accessed[t := [g]];
        assert [] + [g] == [g];
      } else {
        accessed := accessed[t := accessed[t] + [g]];
      }
    }
  }

  // ---------- Facts the loops rest on ----------

  ghost predicate Appended(before: map<Tid, seq<Addr>>, now: map<Tid, seq<Addr>>, g: Addr, s: seq<IndexRec>) {
    forall t :: Get(now, t) == Get(before, t) + Repeat(g, Hits(s, t))
  }

  lemma AppendedNone(now: map<Tid, seq<Addr>>, g: Addr)
    ensures Appended(now, now, g, [])
  {
    assert Repeat(g, 0) == [];
  }

  lemma AppendedOne(before: map<Tid, seq<Addr>>, now: map<Tid, seq<Addr>>, g: Addr, s: seq<IndexRec>, r: IndexRec)
    requires Appended(before, now, g, s)
    ensures Appended(before, Push(now, r.tid, g), g, s + [r])
  {
    assert (s + [r])[..|s|] == s;
    forall t
      ensures Get(Push(now, r.tid, g), t) == Get(before, t) + Repeat(g, Hits(s + [r], t))
    {
      var n := Hits(s, t);
      assert Get(now, t) == Get(before, t) + Repeat(g, n);
      if t == r.tid {
        Associative(Get(before, t), Repeat(g, n), [g]);
        assert Repeat(g, n + 1) == Repeat(g, n) + [g];
      }
    }
  }

  lemma AppendedNext(before: map<Tid, seq<Addr>>, now: map<Tid, seq<Addr>>, g: Addr, s: seq<IndexRec>, n: nat)
    requires n < |s| && Appended(before, now, g, s[..n])
    ensures Appended(before, Push(now, s[n].tid, g), g, s[..n + 1])
  {
    AppendedOne(before, now, g, s[..n], s[n]);
    TakeNext(s, n);
  }

  ghost function SharedAmong(index: Index, keys: seq<Addr>): seq<Addr>
    requires forall k :: k in keys ==> k in index
  {
    if keys == [] then []
    else
      var k := keys[|keys| - 1];
      SharedAmong(index, keys[..|keys| - 1]) + if TwoWriters(index[k]) then [k] else []
  }

  lemma SplitStep(index: Index, before: seq<Addr>, k: Addr)
    requires NoEmptyLists(index) && k in index
    requires forall v :: v in before ==> v in index
    ensures SharedAmong(index, before + [k]) == SharedAmong(index, before) + if TwoWriters(index[k]) then [k] else []
    ensures LocalVars(index, set v | v in before + [k]) ==
            if TwoWriters(index[k]) then LocalVars(index, set v | v in before)
            else LocalVars(index, set v | v in before)[k := [index[k][0].tid]]
  {
    assert (before + [k])[..|before|] == before;
  }

  lemma SplitDone(index: Index, keys: seq<Addr>)
    requires NoEmptyLists(index) && Rising(keys) && forall k :: k in keys <==> k in index
    ensures SharedAmong(index, keys) == SharedVars(index)
    ensures LocalVars(index, set k | k in keys) == LocalVars(index, index.Keys)
  {
    assert (set k | k in keys) == index.Keys;
    SharedAmongAll(index, keys);
    AscendingUnique(SharedAmong(index, keys), SharedSet(index));
  }

  lemma {:induction false} SharedAmongElements(index: Index, keys: seq<Addr>)
    requires forall k :: k in keys ==> k in index
    ensures forall v :: v in SharedAmong(index, keys) <==> v in keys && TwoWriters(index[v])
  {
    if keys == [] {
    } else {
      var before, k := keys[..|keys| - 1], keys[|keys| - 1];
      assert keys == before + [k];
      SharedAmongElements(index, before);
    }
  }

  lemma {:induction false} SharedAmongAll(index: Index, keys: seq<Addr>)
    requires Rising(keys) && forall k :: k in keys ==> k in index
    ensures Rising(SharedAmong(index, keys))
    ensures forall v :: v in SharedAmong(index, keys) <==> v in keys && TwoWriters(index[v])
  {
    SharedAmongElements(index, keys);
    if keys == [] {
    } else {
      var before, k := keys[..|keys| - 1], keys[|keys| - 1];
      SharedAmongAll(index, before);
      assert forall i :: 0 <= i < |before| ==> keys[i] < k;
      RisingPush(SharedAmong(index, before), k);
    }
  }

  method SafetyDecider(index: Index, shared: seq<Addr>) returns (r: int)
    ensures r == Verdict(index, shared)
  {
    var partFlag, totalFlag := 0, 1;
    if shared == [] {
      return 0;
    }
    var keys := KeysInOrder(index.Keys);
    for i := 0 to |shared|
      invariant partFlag in {0, 1} && totalFlag in {0, 1}
      invariant partFlag == 1 <==> SomeShared(index, shared[..i], true)
      invariant totalFlag == 0 <==> SomeShared(index, shared[..i], false)
    {
      var g := shared[i];
      assert shared[..i + 1] == shared[..i] + [g];
      ghost var part, total := partFlag, totalFlag;
      for k := 0 to |keys|
        invariant partFlag in {0, 1} && totalFlag in {0, 1}
        invariant partFlag == 1 <==> part == 1 || (g in keys[..k] && SomeRecord(index[g], true))
        invariant totalFlag == 0 <==> total == 0 || (g in keys[..k] && SomeRecord(index[g], false))
      {
        assert keys[..k + 1] == keys[..k] + [keys[k]];
        if g == keys[k] {
          var p, t := ScanLabels(index[g]);
          partFlag := if p then 1 else partFlag;
          totalFlag := if t then 0 else totalFlag;
        }
      }
      assert keys[..|keys|] == keys;
    }
    assert shared[..|shared|] == shared;
    if totalFlag == 1 {
      return 3;
    } else if partFlag == 1 {
      return 2;
    } else {
      return 1;
    }
  }

  method ScanLabels(s: seq<IndexRec>) returns (part: bool, bare: bool)
    ensures part <==> SomeRecord(s, true)
    ensures bare <==> SomeRecord(s, false)
  {
    part, bare := false, false;
    for i := 0 to |s|
      invariant part <==> SomeRecord(s[..i], true)
      invariant bare <==> SomeRecord(s[..i], false)
    {
      assert s[..i + 1] == s[..i] + [s[i]];
      if s[i].how.sync in {ByMutex, ByBarrier, BySemaphore, ByRwLock} {
        part := true;
      }
      if s[i].how.sync == Unsynced {
        bare := true;
      }
    }
    assert s[..|s|] == s;
  }

  method DataAccess(index: Index, shared: seq<Addr>) returns (r: Access)
    ensures r == if shared == [] then OnlyLocals
                 else if exists v :: v in shared && v in index && |index[v]| >= 2 then Overlapped
                 else Partitioned
  {
    if shared == [] {
      return OnlyLocals;
    }
    var flag := false;
    var keys := KeysInOrder(index.Keys);
    for i := 0 to |shared|
      invariant flag <==> exists v :: v in shared[..i] && v in index && |index[v]| >= 2
    {
      var g := shared[i];
      assert shared[..i + 1] == shared[..i] + [g];
      var tcount, k := 0, 0;
      ghost var before := flag;
      while k < |keys|
        invariant 0 <= k <= |keys|
        invariant tcount == if g in keys[..k] then |index[g]| else 0
        invariant g in keys[..k] ==> tcount < 2
        invariant flag == before
      {
        assert keys[..k + 1] == keys[..k] + [keys[k]];
        if g == keys[k] {
          for n := 0 to |index[g]|
            invariant tcount == n
          {
            tcount := tcount + 1;
          }
        }
        if tcount >= 2 {
          flag := true;
          break;
        }
        k := k + 1;
      }
      assert keys[..|keys|] == keys;
    }
    assert shared[..|shared|] == shared;
    return if flag then Overlapped else Partitioned;
  }

  method DoesUpdate(log: seq<Event>, created: map<Tid, seq<Tid>>, index: Index, shared: seq<Addr>) returns (r: int)
    ensures r == if exists e, p :: e in log && e.Writes? && p in RegionTids(e) && p in created
                                   && Updates(index, shared, p) then 1 else 0
  {
    for i := 0 to |log|
      invariant forall e, p :: e in log[..i] && e.Writes? && p in RegionTids(e) && p in created
                               ==> !Updates(index, shared, p)
    {
      assert log[..i + 1] == log[..i] + [log[i]];
      if log[i].Writes? {
        var regions := RegionTids(log[i]);
        for n := 0 to |regions|
          invariant forall p :: p in regions[..n] && p in created ==> !Updates(index, shared, p)
        {
          assert regions[..n + 1] == regions[..n] + [regions[n]];
          if regions[n] in created {
            var found := HasUpdate(index, shared, regions[n]);
            if found {
              assert log[i] in log && regions[n] in RegionTids(log[i]);
              return 1;
            }
          }
        }
        assert regions[..|regions|] == regions;
      }
    }
    assert log[..|log|] == log;
    return 0;
  }

  method HasUpdate(index: Index, shared: seq<Addr>, p: Tid) returns (r: bool)
    ensures r <==> Updates(index, shared, p)
  {
    var keys := KeysInOrder(index.Keys);
    for i := 0 to |shared|
      invariant !Updates(index, shared[..i], p)
    {
      var g := shared[i];
      assert shared[..i + 1] == shared[..i] + [g];
      for k := 0 to |keys|
        invariant g in keys[..k] ==> forall r :: r in index[g] ==> r.tid != p
      {
        assert keys[..k + 1] == keys[..k] + [keys[k]];
        if g == keys[k] {
          for n := 0 to |index[g]|
            invariant forall j :: 0 <= j < n ==> index[g][j].tid != p
          {
            if index[g][n].tid == p {
              assert g in shared && index[g][n] in index[g];
              return true;
            }
          }
        }
      }
      assert keys[..|keys|] == keys;
    }
    assert shared[..|shared|] == shared;
    return false;
  }

  method TimesListed(v: Addr, shared: seq<Addr>) returns (flag: nat)
    ensures flag != 0 <==> v in shared
  {
    flag := 0;
    for k := 0 to |shared|
      invariant flag != 0 <==> v in shared[..k]
    {
      assert shared[..k + 1] == shared[..k] + [shared[k]];
      if v == shared[k] {
        flag := flag + 1;
      }
    }
    assert shared[..|shared|] == shared;
  }

  method CountRecords(s: seq<IndexRec>, t: Tid) returns (n: nat)
    ensures n == Hits(s, t)
  {
    n := 0;
    for i := 0 to |s|
      invariant n == Hits(s[..i], t)
    {
      assert s[..i + 1][..i] == s[..i];
      if t == s[i].tid {
        n := n + 1;
      }
    }
    assert s[..|s|] == s;
  }

  /** The count walks the index, not the list of shared variables; 0.15 stands for none. */
  method GlobalUpdatesThread(index: Index, shared: seq<Addr>, t: Tid) returns (r: real)
    requires Rising(shared) && forall v :: v in shared ==> v in index
    ensures var n := AccessCount(index, shared, t);
            r == if n == 0 then 0.15 else n as real
  {
    var count := 0;
    var keys := KeysInOrder(index.Keys);
    for i := 0 to |keys|
      invariant count == AccessCount(index, Kept(keys[..i], shared), t)
    {
      KeptStep(index, keys[..i], keys[i], shared, t);
      assert keys[..i + 1] == keys[..i] + [keys[i]];
      var flag := TimesListed(keys[i], shared);
      if flag != 0 {
        var n := CountRecords(index[keys[i]], t);
        count := count + n;
      }
    }
    assert keys[..|keys|] == keys;
    AscendingUnique(keys, index.Keys);
    KeptIsShared(index, shared);
    return if count == 0 then 0.15 else count as real;
  }

  lemma KeptStep(index: Index, before: seq<Addr>, k: Addr, shared: seq<Addr>, t: Tid)
    ensures AccessCount(index, Kept(before + [k], shared), t) ==
            AccessCount(index, Kept(before, shared), t) + if k in shared then Hits(Get(index, k), t) else 0
  {
    assert (before + [k])[..|before|] == before;
    var kept := Kept(before, shared);
    if k in shared {
      assert Kept(before + [k], shared) == kept + [k];
      assert (kept + [k])[..|kept|] == kept;
    } else {
      assert Kept(before + [k], shared) == kept;
    }
  }

  /** The keys that are also in the list of shared variables. */
  ghost function Kept(keys: seq<Addr>, shared: seq<Addr>): seq<Addr> {
    if keys == [] then []
    else
      var k := keys[|keys| - 1];
      Kept(keys[..|keys| - 1], shared) + if k in shared then [k] else []
  }

  lemma {:induction false} KeptElements(keys: seq<Addr>, shared: seq<Addr>)
    requires Rising(keys)
    ensures Rising(Kept(keys, shared))
    ensures forall v :: v in Kept(keys, shared) <==> v in keys && v in shared
  {
    if keys == [] {
    } else {
      var before, k := keys[..|keys| - 1], keys[|keys| - 1];
      assert keys == before + [k];
      KeptElements(before, shared);
      assert forall i :: 0 <= i < |before| ==> keys[i] < k;
      RisingPush(Kept(before, shared), k);
    }
  }

  /** Walking the index and testing each key visits the shared variables in their own order. */
  lemma KeptIsShared(index: Index, shared: seq<Addr>)
    requires Rising(shared) && forall v :: v in shared ==> v in index
    ensures Kept(Ascending(index.Keys), shared) == shared
  {
    var keys := Ascending(index.Keys);
    KeptElements(keys, shared);
    var s := set v | v in shared;
    AscendingUnique(shared, s);
    AscendingUnique(Kept(keys, shared), s);
  }
}
