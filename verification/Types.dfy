/** The records of src/blockchain/types.rs that the other modules use. */
module Types {
  import opened Bytes
  import opened Wrappers

  const RECEIPT_PROOF_LENGTH := 32

  datatype Transaction = Transaction(
    from: Bytes,
    to: Bytes,
    amount: U64,
    fee: U64,
    nonce: U64,
    sourceShard: bv16,
    destinationShard: bv16,
    signature: Bytes,
    data: Option<Bytes>)

  datatype Validator = Validator(address: Bytes, stake: U64, lockedUntil: U64)

  datatype AnonymousAccountState = AnonymousAccountState(viewingHint: Option<Bytes>, noteCommitments: seq<Bytes>)

  datatype Account = Account(
    balance: U64,
    nonce: U64,
    codeHash: Option<Bytes>,
    anonymousState: AnonymousAccountState)

  datatype Contract = Contract(codeWasm: Bytes, storageRoot: Bytes)
}
