/**
 * The lock table as a value: a finite map from block ID to lock object, and the
 * effect of each registry operation on it. The class in module Worker is proved
 * to change its table exactly as these functions say.
 */
module LockTable {
  import opened BlockLocks

  type Table = map<BlockId, BlockLock>

  /** The new table after an operation, and whether the operation succeeded. */
  datatype Outcome = Outcome(table: Table, ok: bool)

  /** Every stored lock is filed under the ID of the block it was created for. */
  ghost predicate WellKeyed(t: Table) {
    forall id :: id in t ==> t[id].blockId == id
  }

  /** Looking a block up never creates an entry: absent IDs give `Absent`. */
  function Lookup(t: Table, id: BlockId): Optional<BlockLock> {
    if id in t then Present(t[id]) else Absent
  }

  /**
   * Registering `lock` (a lock just created for `lock.blockId`): refused when
   * the ID already has a lock, in which case nothing changes.
   */
  function Add(t: Table, lock: BlockLock): (r: Outcome)
    ensures r.ok <==> lock.blockId !in t
    ensures r.table.Keys == t.Keys + {lock.blockId}
    ensures forall id :: id in t ==> r.table[id] == t[id]
    ensures r.table[lock.blockId] == if r.ok then lock else t[lock.blockId]
  {
    if lock.blockId in t then Outcome(t, false)
    else Outcome(t[lock.blockId := lock], true)
  }

  /** Deleting the lock of `id`: refused when there is none, in which case nothing changes. */
  function Remove(t: Table, id: BlockId): (r: Outcome)
    ensures r.ok <==> id in t
    ensures r.table.Keys == t.Keys - {id}
    ensures forall k :: k in r.table ==> r.table[k] == t[k]
  {
    if id !in t then Outcome(t, false)
    else Outcome(t - {id}, true)
  }

  /** A lookup in a well-keyed table returns a lock for the very block asked about. */
  lemma LookupMatchesBlock(t: Table, id: BlockId)
    requires WellKeyed(t)
    ensures Lookup(t, id).Present? <==> id in t
    ensures Lookup(t, id).Present? ==> Lookup(t, id).value.blockId == id
  {
  }

  /** At most one lock per block, and no lock object serves two blocks. */
  lemma WellKeyedIsInjective(t: Table, a: BlockId, b: BlockId)
    requires WellKeyed(t)
    requires a in t && b in t && t[a] == t[b]
    ensures a == b
  {
  }

  lemma AddPreservesWellKeyed(t: Table, lock: BlockLock)
    requires WellKeyed(t)
    ensures WellKeyed(Add(t, lock).table)
  {
  }

  lemma RemovePreservesWellKeyed(t: Table, id: BlockId)
    requires WellKeyed(t)
    ensures WellKeyed(Remove(t, id).table)
  {
  }

  /** Creating a lock twice for one block is refused, and the first lock stays. */
  lemma AddTwiceFails(t: Table, first: BlockLock, second: BlockLock)
    requires first.blockId !in t && second.blockId == first.blockId
    ensures Add(t, first).ok
    ensures Add(Add(t, first).table, second) == Outcome(Add(t, first).table, false)
    ensures Lookup(Add(Add(t, first).table, second).table, first.blockId) == Present(first)
  {
  }

  /** Removing a lock twice: the second removal is refused and changes nothing. */
  lemma RemoveTwiceFails(t: Table, id: BlockId)
    ensures !Remove(Remove(t, id).table, id).ok
    ensures Remove(Remove(t, id).table, id).table == Remove(t, id).table
  {
  }

  /**
   * Round trip: after a successful add the lock can be found; after the matching
   * remove it cannot, and the table is exactly what it was before the add.
   */
  lemma AddThenRemoveRestores(t: Table, lock: BlockLock)
    requires lock.blockId !in t
    ensures Add(t, lock).ok
    ensures Lookup(Add(t, lock).table, lock.blockId) == Present(lock)
    ensures Remove(Add(t, lock).table, lock.blockId) == Outcome(t, true)
    ensures Lookup(Remove(Add(t, lock).table, lock.blockId).table, lock.blockId) == Absent
  {
  }

  /**
   * A call made on the registry. An add carries the lock object the call
   * allocates for its block; a get never changes the table.
   */
  datatype Request = AddReq(lock: BlockLock) | GetReq(id: BlockId) | RemoveReq(id: BlockId)

  /** The table after one request. */
  function Step(t: Table, req: Request): Table {
    match req
    case AddReq(lock) => Add(t, lock).table
    case GetReq(_) => t
    case RemoveReq(id) => Remove(t, id).table
  }

  /** The table after a sequence of requests, applied in order. */
  function Run(t: Table, reqs: seq<Request>): Table
    decreases |reqs|
  {
    if reqs == [] then t else Run(Step(t, reqs[0]), reqs[1..])
  }

  /** A reference definition of which blocks have a lock, on sets of IDs alone. */
  function KeysAfter(ids: set<BlockId>, reqs: seq<Request>): set<BlockId>
    decreases |reqs|
  {
    if reqs == [] then ids
    else
      var next := match reqs[0]
        case AddReq(lock) => ids + {lock.blockId}
        case GetReq(_) => ids
        case RemoveReq(id) => ids - {id};
      KeysAfter(next, reqs[1..])
  }

  /** Every sequence of requests keeps the table well keyed. */
  lemma {:induction false} RunPreservesWellKeyed(t: Table, reqs: seq<Request>)
    requires WellKeyed(t)
    ensures WellKeyed(Run(t, reqs))
    decreases |reqs|
  {
    if reqs != [] {
      match reqs[0] {
        case AddReq(lock) => AddPreservesWellKeyed(t, lock);
        case GetReq(_) =>
        case RemoveReq(id) => RemovePreservesWellKeyed(t, id);
      }
      RunPreservesWellKeyed(Step(t, reqs[0]), reqs[1..]);
    }
  }

  /** The set of blocks holding a lock after any sequence of requests is the one the reference definition gives. */
  lemma {:induction false} RunKeys(t: Table, reqs: seq<Request>)
    ensures Run(t, reqs).Keys == KeysAfter(t.Keys, reqs)
    decreases |reqs|
  {
    if reqs != [] {
      RunKeys(Step(t, reqs[0]), reqs[1..]);
    }
  }

  /** A block has a lock after a sequence of requests exactly when the reference definition says so. */
  lemma RunLookup(t: Table, reqs: seq<Request>, id: BlockId)
    ensures Lookup(Run(t, reqs), id).Present? <==> id in KeysAfter(t.Keys, reqs)
  {
    RunKeys(t, reqs);
  }

  /** Gets alone never change the table. */
  lemma {:induction false} GetsLeaveTable(t: Table, reqs: seq<Request>)
    requires forall i :: 0 <= i < |reqs| ==> reqs[i].GetReq?
    ensures Run(t, reqs) == t
    decreases |reqs|
  {
    if reqs != [] {
      GetsLeaveTable(t, reqs[1..]);
    }
  }
}
