# Block lock registry of the Tachyon worker

This project models the block lock registry of the Tachyon worker's block
store, `BlockLockManager`. The registry is a table from a block ID (a Java
`long`) to one lock object per block. It has three operations:

- `getBlockLock` returns the stored lock of a block, or absent when there is
  none. It never creates a lock. The doc comment above it says that a missing
  lock is created, but the code only returns absent, and the model follows the
  code.
- `addBlockLock` creates a new lock for a block and returns true. When the
  block already has a lock it returns false and changes nothing.
- `removeBlockLock` deletes a block's lock and returns true. When the block has
  no lock it returns false and changes nothing.

The model has three modules:

- `BlockLocks` (block_lock.dfy): the 64-bit block ID, the lock object (a class
  whose only state is the block it was made for), and `Optional` for Guava's
  `Optional`.
- `LockTable` (lock_table.dfy): the table as a value. `Add`, `Remove` and
  `Lookup` give each operation's exact effect. The invariant `WellKeyed` says
  every lock is filed under its own block ID. Lemmas cover the round trip, the
  refusal of duplicates and invariant preservation. They also cover arbitrary
  sequences of calls, checked against a reference definition on sets of IDs.
- `Worker` (block_lock_manager.dfy): the class `BlockLockManager` with the
  mutable field `locks`. Each method is proved to change `locks` exactly as the
  `LockTable` functions say, and to keep `Valid()`.

## Model

| member | source | states |
|---|---|---|
| `BlockLocks.BlockLock.constructor` | servers/src/main/java/tachyon/worker/block/BlockLockManager.java:61 | a new lock remembers the block ID it was created for |
| `Worker.BlockLockManager.constructor` | servers/src/main/java/tachyon/worker/block/BlockLockManager.java:38-40 | a new registry holds no locks and is well keyed |
| `Worker.BlockLockManager.GetBlockLock` | servers/src/main/java/tachyon/worker/block/BlockLockManager.java:48-54 | the result is present exactly when the block has a lock; if present it is the stored lock object itself, made for that block; the registry is not changed |
| `Worker.BlockLockManager.AddBlockLock` | servers/src/main/java/tachyon/worker/block/BlockLockManager.java:56-63 | true exactly when the block had no lock; on true the table gains one entry, a freshly allocated lock for that block, and nothing else changes; on false the table, including the existing lock object, is unchanged; the invariant is kept |
| `Worker.BlockLockManager.RemoveBlockLock` | servers/src/main/java/tachyon/worker/block/BlockLockManager.java:71-78 | true exactly when the block had a lock; the new table is the old one without that key, all other entries untouched; on false nothing changes; the invariant is kept |
| `Worker.LockLifecycle` | servers/src/main/java/tachyon/worker/block/BlockLockManager.java:48-78 | on a live registry, add then get then remove then get: the get after the add finds a new lock for the block, the get after the remove finds nothing, and the registry ends exactly as it started |
| `LockTable.Add` | servers/src/main/java/tachyon/worker/block/BlockLockManager.java:56-63 | succeeds exactly when the ID is absent; the key set afterwards is the old one plus the ID; no existing entry is replaced, even on failure; on success the new key maps to the new lock |
| `LockTable.Remove` | servers/src/main/java/tachyon/worker/block/BlockLockManager.java:71-78 | succeeds exactly when the ID is present; the key set afterwards is the old one minus the ID; every remaining entry is unchanged |
| `LockTable.LookupMatchesBlock` | servers/src/main/java/tachyon/worker/block/BlockLockManager.java:48-53 | in a well-keyed table a lookup is present exactly for stored IDs, and returns a lock made for the block that was asked about |
| `LockTable.WellKeyedIsInjective` | servers/src/main/java/tachyon/worker/block/BlockLockManager.java:37-38 | in a well-keyed table no lock object is filed under two block IDs, so each block has its own lock |
| `LockTable.AddPreservesWellKeyed` | servers/src/main/java/tachyon/worker/block/BlockLockManager.java:61 | adding keeps every lock filed under its own block ID |
| `LockTable.RemovePreservesWellKeyed` | servers/src/main/java/tachyon/worker/block/BlockLockManager.java:76 | removing keeps every lock filed under its own block ID |
| `LockTable.AddTwiceFails` | servers/src/main/java/tachyon/worker/block/BlockLockManager.java:57-61 | a second add for the same block is refused and leaves the table, and the first lock, in place |
| `LockTable.RemoveTwiceFails` | servers/src/main/java/tachyon/worker/block/BlockLockManager.java:72-77 | a second remove for the same block is refused and changes nothing |
| `LockTable.AddThenRemoveRestores` | servers/src/main/java/tachyon/worker/block/BlockLockManager.java:48-78 | after a successful add the lock is found; the following remove succeeds and restores exactly the table from before the add; afterwards the lookup is absent |
| `LockTable.RunPreservesWellKeyed` | servers/src/main/java/tachyon/worker/block/BlockLockManager.java:38-78 | every sequence of add, get and remove calls keeps every lock filed under its own block ID |
| `LockTable.RunKeys` | servers/src/main/java/tachyon/worker/block/BlockLockManager.java:48-78 | after any sequence of calls, the set of blocks that have a lock equals an independent definition: adds insert the ID, removes delete it, gets do nothing |
| `LockTable.RunLookup` | servers/src/main/java/tachyon/worker/block/BlockLockManager.java:48-78 | after any sequence of calls, a lookup finds a lock exactly for the IDs given by that independent definition |
| `LockTable.GetsLeaveTable` | servers/src/main/java/tachyon/worker/block/BlockLockManager.java:48-54 | any sequence of gets alone leaves the table unchanged: lookups never create locks |

## Left out

- The `synchronized` modifiers (lines 48, 56 and 71) and the thread-safety claim (line 32): each method is modelled as one atomic sequential step.
- The `LOG.error` calls (lines 50, 58 and 73): they only log and do not change state.
- The lock's own acquire and release behaviour: `tachyon.worker.block.BlockLock` is not part of this model. A lock is modelled as an object that only records its block ID.
- The caller rule that a lock must not be removed while a thread holds it: the registry does not check it, and lock holding is not modelled.
- `StorageTier`, `StorageDir` and the tier hierarchy: they are exercised by servers/src/test/java/tachyon/worker/tiered/StorageTierTest.java, but their sources are not part of this model. So space requests, cascading eviction and capacity accounting are not modelled.
- Configuration, temporary directories and block file writes in that test are I/O and are left out.
