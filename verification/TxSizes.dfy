/** The sizes of a transmit queue (sfxge.h:213, 606-610; common/efx.h:1952). */
module TxSizes {
  const NDESCS := 1024                // SFXGE_TX_NDESCS
  const LIMIT := NDESCS - 16          // EFX_TXQ_LIMIT
  const BATCH := 64                   // SFXGE_TX_BATCH
  const NOT_BLOCKED := -1             // SFXGE_TXQ_NOT_BLOCKED
  const LEVEL1 := LIMIT / 4           // SFXGE_TXQ_UNBLOCK_LEVEL1
  const LEVEL2 := 0                   // SFXGE_TXQ_UNBLOCK_LEVEL2
}
