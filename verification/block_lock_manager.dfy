/**
 * The worker's block lock registry: one lock object per known block ID.
 * Locks are created and removed explicitly; looking one up never creates it.
 * Each method is one atomic step (the Java methods are `synchronized`).
 */
module Worker {
  import opened BlockLocks
  import opened LockTable

  class BlockLockManager {
    /** A map from a block ID to its lock. */
    var locks: Table

    ghost predicate Valid()
      reads this
    {
      WellKeyed(locks)
    }

    constructor ()
      ensures Valid() && locks == map[]
    {
      locks := map[];
    }

    /** The lock of `blockId`, or `Absent` when the block has none; the table is left alone. */
    method GetBlockLock(blockId: BlockId) returns (r: Optional<BlockLock>)
      requires Valid()
      ensures r.Present? <==> blockId in locks
      ensures r.Present? ==> r.value == locks[blockId] && r.value.blockId == blockId
      ensures r == Lookup(locks, blockId)
    {
      if blockId !in locks {
        return Absent;
      }
      return Present(locks[blockId]);
    }

    /**
     * Creates and registers a new lock for `blockId`; refuses, changing nothing,
     * when the block already has one.
     */
    method AddBlockLock(blockId: BlockId) returns (added: bool)
      requires Valid()
      modifies this
      ensures Valid()
      ensures added <==> blockId !in old(locks)
      ensures blockId in locks && locks[blockId].blockId == blockId
      ensures added ==> fresh(locks[blockId]) && locks == old(locks)[blockId := locks[blockId]]
      ensures !added ==> locks == old(locks)
      ensures Add(old(locks), locks[blockId]) == Outcome(locks, added)
    {
      if blockId in locks {
        return false;
      }
      var lock := new BlockLock(blockId);
      locks := locks[blockId := lock];
      return true;
    }

    /** Deletes the lock of `blockId`; refuses, changing nothing, when there is none. */
    method RemoveBlockLock(blockId: BlockId) returns (removed: bool)
      requires Valid()
      modifies this
      ensures Valid()
      ensures removed <==> blockId in old(locks)
      ensures locks == old(locks) - {blockId}
      ensures !removed ==> locks == old(locks)
      ensures Remove(old(locks), blockId) == Outcome(locks, removed)
    {
      if blockId !in locks {
        return false;
      }
      locks := locks - {blockId};
      return true;
    }
  }

  /**
   * The life of one block's lock on a live registry: add, get, remove, get.
   * The add and the remove succeed, the first get finds the new lock, the
   * second finds nothing, and the registry ends where it started.
   */
  method LockLifecycle(manager: BlockLockManager, blockId: BlockId)
      returns (found: Optional<BlockLock>, gone: Optional<BlockLock>)
    requires manager.Valid() && blockId !in manager.locks
    modifies manager
    ensures manager.Valid() && manager.locks == old(manager.locks)
    ensures found.Present? && found.value.blockId == blockId && fresh(found.value)
    ensures gone == Absent
  {
    var added := manager.AddBlockLock(blockId);
    found := manager.GetBlockLock(blockId);
    var removed := manager.RemoveBlockLock(blockId);
    gone := manager.GetBlockLock(blockId);
    assert added && removed;
  }
}
