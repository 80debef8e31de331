/** The Rosetta side: the double-entry ledger the client produces. */
module Rosetta {
  import opened GoRuntime

  datatype OperationType = TransferOp | FeeOp

  datatype OperationStatus = SUCCESS | FAILURE

  /** The published table of operation statuses: does the status mean that balances change? */
  predicate Successful(status: OperationStatus) {
    match status
    case SUCCESS => true
    case FAILURE => false
  }

  datatype Operation = Operation(
    index: int64,
    related: seq<int64>,
    kind: OperationType,
    status: OperationStatus,
    address: string,
    amount: string)

  datatype Transaction = Transaction(hash: string, operations: seq<Operation>)

  datatype BlockIdentifier = BlockIdentifier(hash: string, index: int64)

  datatype PartialBlockIdentifier = PartialBlockIdentifier(hash: Option<string>, index: Option<int64>)

  datatype Block = Block(id: BlockIdentifier, parent: BlockIdentifier, transactions: seq<Transaction>)

  const GENESIS_BLOCK_INDEX: int64 := 0
}
