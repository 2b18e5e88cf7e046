/**
 The grouping, variable by variable, of the threads that wrote it under each lock. A group keeps its
 threads in a fixed array of 50 slots, of which the first count + 1 are in use.
 */
module LockUsers {
  import opened Basics
  import opened Ordered
  import opened Trace
  import opened Replay

  const SLOTS := 50

  datatype Group = Group(lock: Addr, tid: seq<Tid>, count: nat)

  /** The write names a lock: a mutex, a semaphore or an rw-lock. */
  predicate Locked(r: IndexRec) {
    r.how.sync == ByMutex || r.how.sync == BySemaphore || r.how.sync == ByRwLock
  }

  function LockOf(r: IndexRec): Addr {
    if r.how.sync == BySemaphore then r.how.semVar else r.how.mutexVar
  }

  /** The write was made under the lock a, as its label says: the field that goes with the kind names a. */
  ghost predicate UnderLock(l: Label, a: Addr) {
    || ((l.sync == ByMutex || l.sync == ByRwLock) && l.mutexVar == a)
    || (l.sync == BySemaphore && l.semVar == a)
  }

  ghost predicate UsesAt(records: seq<IndexRec>, a: Addr, t: Tid, n: nat) {
    n < |records| && UnderLock(records[n].how, a) && records[n].tid == t
  }

  ghost predicate NamesAt(records: seq<IndexRec>, a: Addr, n: nat) {
    n < |records| && UnderLock(records[n].how, a)
  }

  ghost predicate Uses(records: seq<IndexRec>, a: Addr, t: Tid) {
    exists n: nat :: UsesAt(records, a, t, n)
  }

  ghost predicate Named(records: seq<IndexRec>, a: Addr) {
    exists n: nat :: NamesAt(records, a, n)
  }

  /** Thread t uses a before u ever does. */
  ghost predicate UsedFirst(records: seq<IndexRec>, a: Addr, t: Tid, u: Tid) {
    exists n: nat :: UsesAt(records, a, t, n) && forall m: nat :: m <= n ==> !UsesAt(records, a, u, m)
  }

  /** The lock a is named before b ever is. */
  ghost predicate NamedFirst(records: seq<IndexRec>, a: Addr, b: Addr) {
    exists n: nat :: NamesAt(records, a, n) && forall m: nat :: m <= n ==> !NamesAt(records, b, m)
  }

  /**
   The slots in use hold, without repeats and in the order of first use, exactly the threads that used
   the lock; the rest are untouched.
   */
  ghost predicate GroupRight(g: Group, records: seq<IndexRec>, unset: seq<Tid>) {
    && |g.tid| == |unset| == SLOTS && g.count < SLOTS
    && Distinct(g.tid[..g.count + 1])
    && (forall t :: t in g.tid[..g.count + 1] <==> Uses(records, g.lock, t))
    && (forall x, y :: 0 <= x < y <= g.count ==> UsedFirst(records, g.lock, g.tid[x], g.tid[y]))
    && g.tid[g.count + 1..] == unset[g.count + 1..]
  }

  /** Each lock named by a record has one group, in the order in which they are first named. */
  ghost predicate Grouped(list: seq<Group>, records: seq<IndexRec>, unset: seq<Tid>) {
    && (forall i, j :: 0 <= i < j < |list| ==> list[i].lock != list[j].lock)
    && (forall i, j :: 0 <= i < j < |list| ==> NamedFirst(records, list[i].lock, list[j].lock))
    && (forall i :: 0 <= i < |list| ==> GroupRight(list[i], records, unset))
    && (forall a :: Named(records, a) <==> exists i :: 0 <= i < |list| && list[i].lock == a)
  }

  lemma {:induction false} Pigeonhole(s: seq<Tid>, threads: set<Tid>)
    requires Distinct(s) && forall t :: t in s ==> t in threads
    ensures |s| <= |threads|
  {
    if s == [] {
    } else {
      var last, rest := s[|s| - 1], s[..|s| - 1];
      assert last in s;
      forall t | t in rest
        ensures t in threads - {last}
      {
        var i :| 0 <= i < |rest| && rest[i] == t;
        assert s[i] != s[|s| - 1];
      }
      Pigeonhole(rest, threads - {last});
    }
  }

  lemma UnderItsLock(r: IndexRec, a: Addr)
    ensures UnderLock(r.how, a) <==> Locked(r) && LockOf(r) == a
  {
  }

  lemma UsesAtPush(records: seq<IndexRec>, r: IndexRec, a: Addr, t: Tid, n: nat)
    ensures UsesAt(records + [r], a, t, n) <==>
            UsesAt(records, a, t, n) || (n == |records| && UnderLock(r.how, a) && r.tid == t)
  {
  }

  lemma NamesAtPush(records: seq<IndexRec>, r: IndexRec, a: Addr, n: nat)
    ensures NamesAt(records + [r], a, n) <==> NamesAt(records, a, n) || (n == |records| && UnderLock(r.how, a))
  {
  }

  lemma UsesPush(records: seq<IndexRec>, r: IndexRec, a: Addr, t: Tid)
    ensures Uses(records + [r], a, t) <==> Uses(records, a, t) || (UnderLock(r.how, a) && r.tid == t)
  {
    forall n: nat
      ensures UsesAt(records + [r], a, t, n) <==>
              UsesAt(records, a, t, n) || (n == |records| && UnderLock(r.how, a) && r.tid == t)
    {
      UsesAtPush(records, r, a, t, n);
    }
    assert UnderLock(r.how, a) && r.tid == t ==> UsesAt(records + [r], a, t, |records|);
  }

  lemma NamedPush(records: seq<IndexRec>, r: IndexRec, a: Addr)
    ensures Named(records + [r], a) <==> Named(records, a) || UnderLock(r.how, a)
  {
    forall n: nat
      ensures NamesAt(records + [r], a, n) <==> NamesAt(records, a, n) || (n == |records| && UnderLock(r.how, a))
    {
      NamesAtPush(records, r, a, n);
    }
    assert UnderLock(r.how, a) ==> NamesAt(records + [r], a, |records|);
  }

  /** What comes first stays first ... */
  lemma UsedFirstKept(records: seq<IndexRec>, r: IndexRec, a: Addr, t: Tid, u: Tid)
    requires UsedFirst(records, a, t, u)
    ensures UsedFirst(records + [r], a, t, u)
  {
    var n: nat :| UsesAt(records, a, t, n) && forall m: nat :: m <= n ==> !UsesAt(records, a, u, m);
    UsesAtPush(records, r, a, t, n);
    forall m: nat | m <= n
      ensures !UsesAt(records + [r], a, u, m)
    {
      UsesAtPush(records, r, a, u, m);
    }
  }

  /** ... and what is there comes before what is new. */
  lemma UsedFirstNew(records: seq<IndexRec>, r: IndexRec, a: Addr, t: Tid)
    requires Uses(records, a, t) && !Uses(records, a, r.tid)
    ensures UsedFirst(records + [r], a, t, r.tid)
  {
    var n: nat :| UsesAt(records, a, t, n);
    UsesAtPush(records, r, a, t, n);
    forall m: nat | m <= n
      ensures !UsesAt(records + [r], a, r.tid, m)
    {
      UsesAtPush(records, r, a, r.tid, m);
    }
  }

  lemma NamedFirstKept(records: seq<IndexRec>, r: IndexRec, a: Addr, b: Addr)
    requires NamedFirst(records, a, b)
    ensures NamedFirst(records + [r], a, b)
  {
    var n: nat :| NamesAt(records, a, n) && forall m: nat :: m <= n ==> !NamesAt(records, b, m);
    NamesAtPush(records, r, a, n);
    forall m: nat | m <= n
      ensures !NamesAt(records + [r], b, m)
    {
      NamesAtPush(records, r, b, m);
    }
  }

  lemma NamedFirstNew(records: seq<IndexRec>, r: IndexRec, a: Addr, b: Addr)
    requires Named(records, a) && !Named(records, b)
    ensures NamedFirst(records + [r], a, b)
  {
    var n: nat :| NamesAt(records, a, n);
    NamesAtPush(records, r, a, n);
    forall m: nat | m <= n
      ensures !NamesAt(records + [r], b, m)
    {
      NamesAtPush(records, r, b, m);
    }
  }

  /** A record that adds no new user to a group leaves it right. */
  lemma GroupKept(g: Group, records: seq<IndexRec>, r: IndexRec, unset: seq<Tid>)
    requires GroupRight(g, records, unset)
    requires UnderLock(r.how, g.lock) ==> r.tid in g.tid[..g.count + 1]
    ensures GroupRight(g, records + [r], unset)
  {
    forall t
      ensures Uses(records + [r], g.lock, t) <==> Uses(records, g.lock, t)
    {
      UsesPush(records, r, g.lock, t);
    }
    forall x, y | 0 <= x < y <= g.count
      ensures UsedFirst(records + [r], g.lock, g.tid[x], g.tid[y])
    {
      UsedFirstKept(records, r, g.lock, g.tid[x], g.tid[y]);
    }
  }

  /** A thread that is no left-over of the unset slots is in the array iff it is in a slot in use. */
  lemma InUse(g: Group, unset: seq<Tid>, t: Tid)
    requires |g.tid| == |unset| == SLOTS && g.count < SLOTS && g.tid[g.count + 1..] == unset[g.count + 1..]
    requires t !in unset[1..]
    ensures t in g.tid <==> t in g.tid[..g.count + 1]
  {
    forall j | g.count < j < SLOTS
      ensures g.tid[j] != t
    {
      assert g.tid[j] == g.tid[g.count + 1..][j - g.count - 1] == unset[j] == unset[1..][j - 1];
    }
  }

  /** There is room for one more user. */
  lemma Fits(g: Group, r: IndexRec, unset: seq<Tid>, records: seq<IndexRec>, threads: set<Tid>)
    requires GroupRight(g, records, unset) && r.tid !in g.tid[..g.count + 1]
    requires |threads| <= SLOTS && r.tid in threads && forall q :: q in records ==> q.tid in threads
    ensures g.count + 1 < SLOTS
  {
    var used := g.tid[..g.count + 1];
    forall q: Tid | q in used + [r.tid]
      ensures q in threads
    {
      if q in used {
        assert Uses(records, g.lock, q);
        var n: nat :| UsesAt(records, g.lock, q, n);
        assert records[n] in records;
      }
    }
    Pigeonhole(used + [r.tid], threads);
  }

  /** A new user takes the next slot. */
  lemma GroupGrows(g: Group, r: IndexRec, unset: seq<Tid>, records: seq<IndexRec>) returns (g': Group)
    requires GroupRight(g, records, unset) && g.count + 1 < SLOTS
    requires UnderLock(r.how, g.lock) && r.tid !in g.tid[..g.count + 1]
    ensures g' == g.(count := g.count + 1, tid := g.tid[g.count + 1 := r.tid])
    ensures GroupRight(g', records + [r], unset)
  {
    g' := g.(count := g.count + 1, tid := g.tid[g.count + 1 := r.tid]);
    var used, now := g.tid[..g.count + 1], g'.tid[..g'.count + 1];
    assert now == used + [r.tid];
    assert g'.tid[g'.count + 1..] == g.tid[g.count + 1..][1..];
    assert unset[g'.count + 1..] == unset[g.count + 1..][1..];
    forall t
      ensures t in now <==> Uses(records + [r], g.lock, t)
    {
      UsesPush(records, r, g.lock, t);
    }
    forall x, y | 0 <= x < y <= g'.count
      ensures UsedFirst(records + [r], g.lock, g'.tid[x], g'.tid[y])
    {
      GrownOrder(g, r, records, unset, x, y);
    }
  }

  lemma GrownOrder(g: Group, r: IndexRec, records: seq<IndexRec>, unset: seq<Tid>, x: nat, y: nat)
    requires GroupRight(g, records, unset) && g.count + 1 < SLOTS
    requires r.tid !in g.tid[..g.count + 1] && x < y <= g.count + 1
    ensures var now := g.tid[g.count + 1 := r.tid]; UsedFirst(records + [r], g.lock, now[x], now[y])
  {
    if y <= g.count {
      UsedFirstKept(records, r, g.lock, g.tid[x], g.tid[y]);
    } else {
      assert g.tid[..g.count + 1][x] == g.tid[x];
      assert Uses(records, g.lock, g.tid[x]);
      UsedFirstNew(records, r, g.lock, g.tid[x]);
    }
  }

  /** Adds a thread to a group unless one of the 50 slots, used or not, already holds it. */
  method AddToGroup(g: Group, t: Tid, r: IndexRec, unset: seq<Tid>,
      ghost records: seq<IndexRec>, ghost threads: set<Tid>)
    returns (g': Group)
    requires GroupRight(g, records, unset)
    requires UnderLock(r.how, g.lock) && r.tid == t
    requires |threads| <= SLOTS && t in threads && forall q :: q in records ==> q.tid in threads
    requires t !in unset[1..]
    ensures g'.lock == g.lock && GroupRight(g', records + [r], unset)
  {
    var k := 0;
    for i := 0 to SLOTS
      invariant k == 0 || k == 1
      invariant k == 1 <==> t in g.tid[..i]
    {
      assert g.tid[..i + 1] == g.tid[..i] + [g.tid[i]];
      if g.tid[i] == t {
        k := 1;
      }
    }
    assert g.tid[..SLOTS] == g.tid;
    InUse(g, unset, t);
    if k == 0 {
      Fits(g, r, unset, records, threads);
      ghost var grown := GroupGrows(g, r, unset, records);
      g' := g.(count := g.count + 1, tid := g.tid[g.count + 1 := t]);
    } else {
      GroupKept(g, records, r, unset);
      g' := g;
    }
  }

  /** Offers the record to every group; at most one takes it. */
  method OfferToGroups(list: seq<Group>, r: IndexRec, unset: seq<Tid>,
      ghost records: seq<IndexRec>, ghost threads: set<Tid>)
    returns (list': seq<Group>, p: int)
    requires forall i :: 0 <= i < |list| ==> GroupRight(list[i], records, unset)
    requires Locked(r) && |threads| <= SLOTS && r.tid in threads && forall q :: q in records ==> q.tid in threads
    requires |unset| == SLOTS && r.tid !in unset[1..]
    ensures |list'| == |list| && forall i :: 0 <= i < |list| ==>
      list'[i].lock == list[i].lock && GroupRight(list'[i], records + [r], unset)
    ensures p == 0 <==> forall i :: 0 <= i < |list| ==> list[i].lock != LockOf(r)
  {
    forall a
      ensures UnderLock(r.how, a) <==> a == LockOf(r)
    {
      UnderItsLock(r, a);
    }
    list', p := list, 0;
    for n := 0 to |list|
      invariant |list'| == |list|
      invariant p == 0 <==> forall i :: 0 <= i < n ==> list[i].lock != LockOf(r)
      invariant forall i :: 0 <= i < n ==> list'[i].lock == list[i].lock && GroupRight(list'[i], records + [r], unset)
      invariant forall i :: n <= i < |list| ==> list'[i] == list[i]
    {
      if list[n].lock == LockOf(r) {
        p := 1;
        var g := AddToGroup(list[n], r.tid, r, unset, records, threads);
        list' := list'[n := g];
      } else {
        GroupKept(list[n], records, r, unset);
      }
    }
  }

  method AddRecord(list: seq<Group>, r: IndexRec, unset: seq<Tid>,
      ghost records: seq<IndexRec>, ghost threads: set<Tid>)
    returns (list': seq<Group>, mflag: bool)
    requires Grouped(list, records, unset) && Locked(r)
    requires |threads| <= SLOTS && r.tid in threads && forall q :: q in records ==> q.tid in threads
    requires |unset| == SLOTS && r.tid !in unset[1..]
    ensures Grouped(list', records + [r], unset)
    ensures |list'| == |list| + if mflag then 1 else 0
  {
    var p;
    list', p := OfferToGroups(list, r, unset, records, threads);
    UnderItsLock(r, LockOf(r));
    mflag := p == 0;
    if p == 0 {
      assert forall i :: 0 <= i < |list| ==> list[i].lock != LockOf(r);
      assert !Named(records, LockOf(r));
      var g := Group(LockOf(r), unset[0 := r.tid], 0);
      NewGroup(g, records, r, unset);
      AddedGroup(list, list', g, records, r, unset);
      list' := list' + [g];
    } else {
      NoGroupAdded(list, list', records, r, unset);
    }
  }

  /** The groups in front of the new one are in order, and it is named after them all. */
  lemma AddedGroup(list: seq<Group>, list': seq<Group>, g: Group, records: seq<IndexRec>, r: IndexRec, unset: seq<Tid>)
    requires Grouped(list, records, unset) && |list'| == |list|
    requires forall i :: 0 <= i < |list| ==>
      list'[i].lock == list[i].lock && GroupRight(list'[i], records + [r], unset)
    requires Locked(r) && g.lock == LockOf(r) && !Named(records, g.lock) && GroupRight(g, records + [r], unset)
    ensures Grouped(list' + [g], records + [r], unset)
  {
    var now := list' + [g];
    forall i, j | 0 <= i < j < |now|
      ensures now[i].lock != now[j].lock && NamedFirst(records + [r], now[i].lock, now[j].lock)
    {
      assert Named(records, list[i].lock);
      if j < |list| {
        NamedFirstKept(records, r, list[i].lock, list[j].lock);
      } else {
        NamedFirstNew(records, r, list[i].lock, g.lock);
      }
    }
    forall a
      ensures Named(records + [r], a) <==> exists i :: 0 <= i < |now| && now[i].lock == a
    {
      NamedPush(records, r, a);
      UnderItsLock(r, a);
      if i :| 0 <= i < |list| && list[i].lock == a {
        assert now[i].lock == a;
      }
      assert now[|list|].lock == LockOf(r);
    }
  }

  lemma NoGroupAdded(list: seq<Group>, list': seq<Group>, records: seq<IndexRec>, r: IndexRec, unset: seq<Tid>)
    requires Grouped(list, records, unset) && |list'| == |list|
    requires forall i :: 0 <= i < |list| ==>
      list'[i].lock == list[i].lock && GroupRight(list'[i], records + [r], unset)
    requires Locked(r) ==> exists i :: 0 <= i < |list| && list[i].lock == LockOf(r)
    ensures Grouped(list', records + [r], unset)
  {
    forall i, j | 0 <= i < j < |list'|
      ensures NamedFirst(records + [r], list'[i].lock, list'[j].lock)
    {
      NamedFirstKept(records, r, list[i].lock, list[j].lock);
    }
    forall a
      ensures Named(records + [r], a) <==> exists i :: 0 <= i < |list'| && list'[i].lock == a
    {
      NamedPush(records, r, a);
      UnderItsLock(r, a);
      if i :| 0 <= i < |list| && list[i].lock == a {
        assert list'[i].lock == a;
      }
    }
  }

  lemma NewGroup(g: Group, records: seq<IndexRec>, r: IndexRec, unset: seq<Tid>)
    requires |unset| == SLOTS && Locked(r) && !Named(records, LockOf(r))
    requires g == Group(LockOf(r), unset[0 := r.tid], 0)
    ensures GroupRight(g, records + [r], unset)
  {
    UnderItsLock(r, g.lock);
    assert g.tid[..1] == [r.tid];
    forall t
      ensures Uses(records + [r], g.lock, t) <==> t == r.tid
    {
      UsesPush(records, r, g.lock, t);
      if Uses(records, g.lock, t) {
        var n: nat :| UsesAt(records, g.lock, t, n);
        assert NamesAt(records, g.lock, n);
      }
    }
  }

  /**
   The list for one variable names each lock once, with its users in order, given at most 50 threads
   and unset slots that hold no thread id. `unset` is what a new group's slots hold beforehand; its
   first slot is overwritten at once.
   */
  method GroupLocks(records: seq<IndexRec>, unset: seq<Tid>, ghost threads: set<Tid>)
    returns (list: seq<Group>, mflag: bool)
    requires |unset| == SLOTS && |threads| <= SLOTS
    requires forall r :: r in records ==> r.tid in threads && r.tid !in unset[1..]
    ensures Grouped(list, records, unset)
    ensures mflag <==> list != []
  {
    list, mflag := [], false;
    for n := 0 to |records|
      invariant Grouped(list, records[..n], unset)
      invariant mflag <==> list != []
    {
      assert records[..n + 1] == records[..n] + [records[n]];
      if Locked(records[n]) {
        var made;
        list, made := AddRecord(list, records[n], unset, records[..n], threads);
        mflag := mflag || made;
      } else {
        SkipRecord(list, records[..n], records[n], unset);
      }
    }
    assert records[..|records|] == records;
  }

  lemma SkipRecord(list: seq<Group>, records: seq<IndexRec>, r: IndexRec, unset: seq<Tid>)
    requires Grouped(list, records, unset) && !Locked(r)
    ensures Grouped(list, records + [r], unset)
  {
    forall i | 0 <= i < |list|
      ensures GroupRight(list[i], records + [r], unset)
    {
      UnderItsLock(r, list[i].lock);
      GroupKept(list[i], records, r, unset);
    }
    NoGroupAdded(list, list, records, r, unset);
  }

  ghost predicate SomeLocked(records: seq<IndexRec>) {
    exists a :: Named(records, a)
  }

  lemma SomeGroup(list: seq<Group>, records: seq<IndexRec>, unset: seq<Tid>)
    requires Grouped(list, records, unset)
    ensures list != [] <==> SomeLocked(records)
  {
    if list != [] {
      assert Named(records, list[0].lock);
    }
  }

  /** The map over variables has an entry for v, with v's groups, iff some record of v names a lock. */
  ghost predicate GroupedAll(users: map<Addr, seq<Group>>, index: Index, unset: seq<Tid>, vars: seq<Addr>) {
    && (forall v :: v in users <==> v in vars && v in index && SomeLocked(index[v]))
    && forall v :: v in users ==> Grouped(users[v], index[v], unset)
  }

  /** The outer loop, which fills `mutexglobalinmap`. */
  method GroupAll(index: Index, unset: seq<Tid>, ghost threads: set<Tid>) returns (users: map<Addr, seq<Group>>)
    requires |unset| == SLOTS && |threads| <= SLOTS
    requires forall v, r :: v in index && r in index[v] ==> r.tid in threads && r.tid !in unset[1..]
    ensures forall v :: v in users <==> v in index && SomeLocked(index[v])
    ensures forall v :: v in users ==> Grouped(users[v], index[v], unset)
  {
    users := map[];
    var keys := KeysInOrder(index.Keys);
    for n := 0 to |keys|
      invariant GroupedAll(users, index, unset, keys[..n])
    {
      RisingFresh(keys, n);
      var v := keys[n];
      assert v in index;
      var list, mflag := GroupLocks(index[v], unset, threads);
      SomeGroup(list, index[v], unset);
      if mflag {
        users := users[v := list];
      }
    }
    assert keys[..|keys|] == keys;
  }
}
