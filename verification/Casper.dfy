/** The Casper node behind the client: what its RPC calls answer, taken as functions of their arguments. */
module Casper {
  import opened GoRuntime
  import opened Hex

  /** A native transfer of a block. */
  datatype Transfer = Transfer(deployHash: string, source: string, target: string, amount: string)

  /** One execution of a deploy; `failure` and `success` carry the cost when they are present. */
  datatype ExecutionResult = ExecutionResult(blockHash: string, failure: Option<string>, success: Option<string>)

  datatype Deploy = Deploy(hash: string, account: string, paymentArgs: seq<string>)

  datatype DeployResponse = DeployResponse(deploy: Deploy, executionResults: seq<ExecutionResult>)

  datatype BlockResponse = BlockResponse(
    hash: string,
    height: uint64,
    parentHash: string,
    stateRootHash: string,
    proposer: string,
    deployHashes: seq<string>)

  /** The zero value of a block response, which a variable holds before any assignment. */
  const ZERO_BLOCK: BlockResponse := BlockResponse("", 0, "", "", "", [])

  datatype Node = Node(
    blockByHash: string -> Option<BlockResponse>,
    blockByHeight: uint64 -> Option<BlockResponse>,
    latestBlock: Option<BlockResponse>,
    transfersByHash: string -> Option<seq<Transfer>>,
    transfersByHeight: uint64 -> Option<seq<Transfer>>,
    latestTransfers: Option<seq<Transfer>>,
    deploy: string -> Option<DeployResponse>,
    paymentAmount: Deploy -> Option<string>,
    mainPurse: (string, string) -> Option<string>,      // state root hash, account-hash key
    accountBalance: (string, string) -> Option<int>,    // state root hash, purse
    blake2b256: seq<byte> -> seq<byte>)
}
