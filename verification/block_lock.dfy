/**
 * The values the block lock registry stores and hands out: block IDs, the lock
 * objects themselves, and the optional result of a lookup.
 */
module BlockLocks {

  /** A block ID is a Java `long`: a signed 64-bit integer. */
  newtype BlockId = x: int | -0x8000_0000_0000_0000 <= x < 0x8000_0000_0000_0000

  /**
   * One lock per block. Its acquire/release behaviour is not part of this model;
   * what matters here is that each lock is a distinct object that remembers the
   * block it was created for.
   */
  class BlockLock {
    const blockId: BlockId

    constructor (blockId: BlockId)
      ensures this.blockId == blockId
    {
      this.blockId := blockId;
    }
  }

  /** The result of a lookup that may find nothing: `Absent` or `Present(value)`. */
  datatype Optional<+T> = Absent | Present(value: T)
}
