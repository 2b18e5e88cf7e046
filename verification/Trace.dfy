/**
 The event log. A callback of the tool appends one entry to `accessmap`; an entry's tag string,
 acting thread and operand become one `Event`. Thread ids and addresses are opaque numbers.
 */
module Trace {
  type Tid = nat
  type Addr = nat

  datatype LockKind = Mutex | Semaphore | RwLock

  datatype Event =
    | Creates(tid: Tid, child: Tid)
    | PassesBarrier(tid: Tid, bar: Addr)
    | Requests(tid: Tid, kind: LockKind, lock: Addr)
    | Tries(tid: Tid, lock: Addr)
    | Acquires(tid: Tid, kind: LockKind, lock: Addr)
    | Unlocks(tid: Tid, kind: LockKind, lock: Addr)
    | Waits(tid: Tid, cond: Addr, lock: Addr)
    | Signals(tid: Tid, cond: Addr, lock: Addr)
    | Writes(tid: Tid, v: Addr)
    | Other(tid: Tid)

  /** The log without its last entry. */
  function Earlier(log: seq<Event>): seq<Event>
    requires log != []
  {
    log[..|log| - 1]
  }

  function Last(log: seq<Event>): Event
    requires log != []
  {
    log[|log| - 1]
  }
}
