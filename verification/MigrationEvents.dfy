/** Migration events of the legacy gateway, as the chain emits them. */
module MigrationEvents {

  datatype Kind = Started | Finalized

  datatype Event = Event(
    kind: Kind, chainId: nat, settlementLayer: nat, block: nat, logIndex: nat, txHash: string)

  /** What the scan deduplicates by. */
  function Key(e: Event): (string, nat) {
    (e.txHash, e.logIndex)
  }
}
