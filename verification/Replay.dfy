/**
 What replaying the event log does to the linked tables, event by event, as functions on values.
 `Analyzer` performs the same replay in place; its methods are proved to compute `Step` and `Run`.
 */
module Replay {
  import opened Ordered
  import opened Trace

  // The flag of a lock record.
  const RELEASED := 0
  const HELD := 1
  const REQUESTED := 2
  const RW_HELD := 7
  const BARRIER_PASSED := 9
  const SEM_HELD := 11

  datatype LockRec = LockRec(tid: Tid, flag: int, addr: Addr)

  datatype When = NoWhen | Before | After
  datatype Sync = Unsynced | ByMutex | BySemaphore | ByRwLock | ByBarrier

  /** The synchronisation fields that a write record carries in both tables. */
  datatype Label = Label(mutexVar: Addr, semVar: Addr, when: When, sync: Sync)

  datatype WriteRec = WriteRec(tid: Tid, v: Addr, how: Label)
  datatype IndexRec = IndexRec(tid: Tid, how: Label)
  datatype Tally = Tally(tid: Tid, scount: nat, count: nat, bcount: nat)

  type LockTable = map<Addr, seq<LockRec>>
  type Index = map<Addr, seq<IndexRec>>
  type Tallies = map<Addr, seq<Tally>>

  datatype Tables = Tables(
    locks: LockTable,               // globalmutmap
    writes: seq<WriteRec>,          // globalmap, whose keys are 1, 2, 3, ...
    index: Index,                   // globalinmap
    tallies: Tallies,               // cglobalinmap
    created: map<Tid, seq<Tid>>)    // createmap

  const NO_TABLES := Tables(map[], [], map[], map[], map[])

  function Get<T>(m: map<nat, seq<T>>, k: nat): seq<T> {
    if k in m then m[k] else []
  }

  function Push<T>(m: map<nat, seq<T>>, k: nat, x: T): map<nat, seq<T>> {
    m[k := Get(m, k) + [x]]
  }

  // ---------- Lock records ----------

  function MoveFlag(r: LockRec, t: Tid, a: Addr, from: int, to: int): LockRec {
    if r.tid == t && r.addr == a && r.flag == from then r.(flag := to) else r
  }

  function MoveList(s: seq<LockRec>, t: Tid, a: Addr, from: int, to: int): seq<LockRec> {
    seq(|s|, i requires 0 <= i < |s| => MoveFlag(s[i], t, a, from, to))
  }

  function MoveFlags(locks: LockTable, t: Tid, a: Addr, from: int, to: int): LockTable {
    map k | k in locks :: MoveList(locks[k], t, a, from, to)
  }

  /** The flag that an acquisition turns a pending request into. */
  function HeldFlag(kind: LockKind): int {
    match kind
    case Mutex => HELD
    case Semaphore => SEM_HELD
    case RwLock => RW_HELD
  }

  // ---------- The label of a new write ----------

  datatype Marks = Marks(how: Label, synced: bool, barred: bool)

  const UNMARKED := Marks(Label(0, 0, NoWhen, Unsynced), false, false)

  function Mark(m: Marks, r: LockRec, t: Tid): Marks {
    if r.tid != t then m
    else if r.flag == REQUESTED then
      Marks(m.how.(mutexVar := r.addr, sync := ByMutex), true, m.barred)
    else if r.flag == SEM_HELD then
      Marks(m.how.(semVar := r.addr, sync := BySemaphore), true, m.barred)
    else if r.flag == RW_HELD then
      Marks(m.how.(mutexVar := r.addr, sync := ByRwLock), true, m.barred)
    else if r.flag == BARRIER_PASSED then
      Marks(m.how.(mutexVar := r.addr, when := After, sync := ByBarrier), m.synced, true)
    else m
  }

  function MarkList(m: Marks, s: seq<LockRec>, t: Tid): Marks {
    if s == [] then m else Mark(MarkList(m, s[..|s| - 1], t), s[|s| - 1], t)
  }

  function MarkKeys(m: Marks, locks: LockTable, keys: seq<Addr>, t: Tid): Marks {
    if keys == [] then m
    else MarkList(MarkKeys(m, locks, keys[..|keys| - 1], t), Get(locks, keys[|keys| - 1]), t)
  }

  /** A later record overrides an earlier one, in the iteration order of the lock table. */
  function MarksOf(locks: LockTable, t: Tid): Marks {
    MarkKeys(UNMARKED, locks, Ascending(locks.Keys), t)
  }

  // ---------- Counters ----------

  predicate HasTally(s: seq<Tally>, t: Tid) {
    exists i :: 0 <= i < |s| && s[i].tid == t
  }

  function CountOne(c: Tally, t: Tid, m: Marks): Tally {
    if c.tid != t then c
    else if m.synced then c.(scount := c.scount + 1)
    else if m.barred then c.(bcount := c.bcount + 1)
    else c.(count := c.count + 1)
  }

  function FirstTally(t: Tid, m: Marks): Tally {
    Tally(t, if m.synced then 1 else 0, 0, if m.barred then 1 else 0)
  }

  function CountWrite(s: seq<Tally>, t: Tid, m: Marks): seq<Tally> {
    if HasTally(s, t) then seq(|s|, i requires 0 <= i < |s| => CountOne(s[i], t, m))
    else s + [FirstTally(t, m)]
  }

  // ---------- What a barrier does to records already made ----------

  function BarLabel(l: Label, b: Addr): Label {
    l.(mutexVar := b, when := Before, sync := ByBarrier)
  }

  function BarWrite(w: WriteRec, t: Tid, b: Addr): WriteRec {
    if w.tid == t then w.(how := BarLabel(w.how, b)) else w
  }

  function BarIndexRec(w: IndexRec, t: Tid, b: Addr): IndexRec {
    if w.tid == t then w.(how := BarLabel(w.how, b)) else w
  }

  function BarTally(c: Tally, t: Tid): Tally {
    if c.tid == t then c.(bcount := c.bcount + 1) else c
  }

  function BarWrites(s: seq<WriteRec>, t: Tid, b: Addr): seq<WriteRec> {
    seq(|s|, i requires 0 <= i < |s| => BarWrite(s[i], t, b))
  }

  function BarList(s: seq<IndexRec>, t: Tid, b: Addr): seq<IndexRec> {
    seq(|s|, i requires 0 <= i < |s| => BarIndexRec(s[i], t, b))
  }

  function BarIndex(index: Index, t: Tid, b: Addr): Index {
    map v | v in index :: BarList(index[v], t, b)
  }

  function BarTallyList(s: seq<Tally>, t: Tid): seq<Tally> {
    seq(|s|, i requires 0 <= i < |s| => BarTally(s[i], t))
  }

  function BarTallies(tallies: Tallies, t: Tid): Tallies {
    map v | v in tallies :: BarTallyList(tallies[v], t)
  }

  // ---------- One event, one run ----------

  /** A write to an address that is itself a key of the lock table leaves these tables alone. */
  function AddWrite(tb: Tables, t: Tid, v: Addr): Tables {
    if v in tb.locks then tb
    else
      var m := MarksOf(tb.locks, t);
      tb.(writes := tb.writes + [WriteRec(t, v, m.how)],
          index := Push(tb.index, v, IndexRec(t, m.how)),
          tallies := tb.tallies[v := CountWrite(Get(tb.tallies, v), t, m)])
  }

  function AddBarrier(tb: Tables, t: Tid, b: Addr): Tables {
    tb.(locks := Push(tb.locks, b, LockRec(t, BARRIER_PASSED, b)),
        writes := BarWrites(tb.writes, t, b),
        index := BarIndex(tb.index, t, b),
        tallies := BarTallies(tb.tallies, t))
  }

  function AddRequest(tb: Tables, t: Tid, a: Addr): Tables {
    tb.(locks := Push(tb.locks, a, LockRec(t, REQUESTED, a)))
  }

  /** The tag of a semaphore unlock is not the one the replay tests for, so it does nothing. */
  function AddUnlock(tb: Tables, t: Tid, kind: LockKind, a: Addr): Tables {
    if kind == Semaphore then tb
    else tb.(locks := MoveFlags(tb.locks, t, a, HELD, RELEASED))
  }

  function Step(tb: Tables, e: Event): Tables {
    match e
    case PassesBarrier(t, b) => AddBarrier(tb, t, b)
    case Requests(t, _, a) => AddRequest(tb, t, a)
    case Tries(t, a) => AddRequest(tb, t, a)
    case Acquires(t, kind, a) => tb.(locks := MoveFlags(tb.locks, t, a, REQUESTED, HeldFlag(kind)))
    case Unlocks(t, kind, a) => AddUnlock(tb, t, kind, a)
    case Creates(t, c) => tb.(created := Push(tb.created, t, c))
    case Writes(t, v) => AddWrite(tb, t, v)
    case Waits(_, _, _) => tb
    case Signals(_, _, _) => tb
    case Other(_) => tb
  }

  /** The tables after replaying a whole log. */
  function Run(log: seq<Event>): Tables {
    if log == [] then NO_TABLES else Step(Run(Earlier(log)), Last(log))
  }
}
