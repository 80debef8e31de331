/** `Block`: a block of the chain as a list of Rosetta transactions. */
module Blocks {
  import opened GoRuntime
  import opened Casper
  import opened Rosetta
  import opened Addressing
  import opened Transactions
  import opened Grouping
  import opened Sequences
  import opened Walks

  // ---------- the specification

  datatype Fetched = Fetched(block: BlockResponse, transfers: seq<Transfer>)

  /** The block and the transfers of a partial identifier. When both parts are given both are fetched
      and the height wins; when none is, both variables keep their zero values. */
  function Fetch(node: Node, id: Option<PartialBlockIdentifier>): (r: Outcome<Fetched>)
    ensures !r.Panic?
  {
    match id
    case None =>
      var block :- Require(node.latestBlock, CouldNotGetBlock);
      var transfers :- Require(node.latestTransfers, CouldNotGetTransfers);
      Ok(Fetched(block, transfers))
    case Some(p) =>
      var byHash :- if p.hash.Some? then FetchByHash(node, p.hash.value) else Ok(Fetched(ZERO_BLOCK, []));
      if p.index.Some? then FetchByHeight(node, WrapUint64(p.index.value)) else Ok(byHash)
  }

  function FetchByHash(node: Node, hash: string): (r: Outcome<Fetched>)
    ensures !r.Panic?
  {
    var block :- Require(node.blockByHash(hash), CouldNotGetBlock);
    var transfers :- Require(node.transfersByHash(hash), CouldNotGetTransfers);
    Ok(Fetched(block, transfers))
  }

  function FetchByHeight(node: Node, height: uint64): (r: Outcome<Fetched>)
    ensures !r.Panic?
  {
    var block :- Require(node.blockByHeight(height), CouldNotGetBlock);
    var transfers :- Require(node.transfersByHeight(height), CouldNotGetTransfers);
    Ok(Fetched(block, transfers))
  }

  /** What is read for an identifier, for all of them: each part that is given is read, and nothing else. */
  lemma FetchExact(node: Node, id: Option<PartialBlockIdentifier>, f: Fetched)
    ensures Fetch(node, id) == Ok(f) <==>
            match id
            case None => node.latestBlock == Some(f.block) && node.latestTransfers == Some(f.transfers)
            case Some(PartialBlockIdentifier(None, None)) =>
              f == Fetched(BlockResponse("", 0, "", "", "", []), [])
            case Some(PartialBlockIdentifier(Some(hash), None)) => IsAtHash(node, hash, f)
            case Some(PartialBlockIdentifier(None, Some(index))) => IsAtHeight(node, WrapUint64(index), f)
            case Some(PartialBlockIdentifier(Some(hash), Some(index))) =>
              (exists g :: IsAtHash(node, hash, g)) && IsAtHeight(node, WrapUint64(index), f)
  {
    if id.Some? && id.value.hash.Some? && FetchByHash(node, id.value.hash.value).Ok? {
      assert IsAtHash(node, id.value.hash.value, FetchByHash(node, id.value.hash.value).value);
    }
  }

  predicate IsAtHash(node: Node, hash: string, f: Fetched) {
    node.blockByHash(hash) == Some(f.block) && node.transfersByHash(hash) == Some(f.transfers)
  }

  predicate IsAtHeight(node: Node, height: uint64, f: Fetched) {
    node.blockByHeight(height) == Some(f.block) && node.transfersByHeight(height) == Some(f.transfers)
  }

  /** The first lookup that fails decides the error: at a hash, then at a height, the block before the
      transfers. */
  lemma FetchFails(node: Node, id: Option<PartialBlockIdentifier>)
    ensures var out := Fetch(node, id);
            match id
            case None =>
              && (out == Err(CouldNotGetBlock) <==> node.latestBlock.None?)
              && (out == Err(CouldNotGetTransfers) <==> node.latestBlock.Some? && node.latestTransfers.None?)
            case Some(PartialBlockIdentifier(Some(hash), _)) =>
              && (node.blockByHash(hash).None? ==> out == Err(CouldNotGetBlock))
              && (node.blockByHash(hash).Some? && node.transfersByHash(hash).None? ==>
                    out == Err(CouldNotGetTransfers))
              && (node.blockByHash(hash).Some? && node.transfersByHash(hash).Some? && id.value.index.Some? ==>
                    out == Fetch(node, Some(PartialBlockIdentifier(None, id.value.index))))
            case Some(PartialBlockIdentifier(None, Some(index))) =>
              var height := WrapUint64(index);
              && (out == Err(CouldNotGetBlock) <==> node.blockByHeight(height).None?)
              && (out == Err(CouldNotGetTransfers) <==>
                  node.blockByHeight(height).Some? && node.transfersByHeight(height).None?)
            case _ => out.Ok?
  {
  }

  function Identifier(block: BlockResponse): BlockIdentifier {
    BlockIdentifier(block.hash, WrapInt64(block.height))
  }

  function ParentIdentifier(block: BlockResponse): BlockIdentifier {
    var id := Identifier(block);
    if id.index != GENESIS_BLOCK_INDEX then BlockIdentifier(block.parentHash, WrapInt64(id.index - 1)) else id
  }

  function ProposerPurse(node: Node, block: BlockResponse): Outcome<string> {
    MainPurse(node, block.proposer, block.stateRootHash).WithError(NoValidatorPurse)
  }

  /** All that `Block` looks up for an identifier: the block, its transfers, the proposer's purse, and
      what each deploy settles. */
  datatype Resolved = Resolved(
    block: BlockResponse,
    transfers: seq<Transfer>,
    proposerPurse: string,
    settle: string -> Outcome<Settlement>)

  function Settler(node: Node, block: BlockResponse): string -> Outcome<Settlement> {
    h => Settle(node, h, block)
  }

  function Resolve(node: Node, id: Option<PartialBlockIdentifier>): (r: Outcome<Resolved>)
  {
    var fetched :- Fetch(node, id);
    var proposerPurse :- ProposerPurse(node, fetched.block);
    Ok(Resolved(fetched.block, fetched.transfers, proposerPurse, Settler(node, fetched.block)))
  }

  /** What is resolved is what is read: the block and transfers of the identifier, the main purse of the
      block's own proposer at the block's own state, and the settlement of each deploy for that block. */
  lemma ResolveExact(node: Node, id: Option<PartialBlockIdentifier>, r: Resolved)
    ensures Resolve(node, id) == Ok(r) <==>
            && Fetch(node, id) == Ok(Fetched(r.block, r.transfers))
            && MainPurse(node, r.block.proposer, r.block.stateRootHash) == Ok(r.proposerPurse)
            && r.settle == Settler(node, r.block)
    ensures Resolve(node, id) == Ok(r) ==> forall h :: r.settle(h) == Settle(node, h, r.block)
    ensures Fetch(node, id).Err? ==> Resolve(node, id) == Err(Fetch(node, id).error)
    ensures Fetch(node, id).Ok? ==>
              var block := Fetch(node, id).value.block;
              && (Resolve(node, id).Panic? <==> |block.proposer| < 2)
              && (Resolve(node, id).Err? <==> MainPurse(node, block.proposer, block.stateRootHash).Err?)
              && (Resolve(node, id).Err? ==> Resolve(node, id) == Err(NoValidatorPurse))
  {
    if Fetch(node, id).Ok? {
      var block := Fetch(node, id).value.block;
      MainPurseExact(node, block.proposer, block.stateRootHash);
    }
  }

  function Keys(r: Resolved): set<string> {
    DeployKeys(r.transfers, r.block.deployHashes)
  }

  /** How the body of the walk over the index fares with one deploy. */
  function Entry(aliasing: Aliasing, r: Resolved, h: string): Outcome<Transaction> {
    var settlement :- r.settle(h);
    Assemble(h, settlement, Group(aliasing, r.transfers, h), r.proposerPurse)
  }

  function Entries(aliasing: Aliasing, r: Resolved): string -> Outcome<Transaction> {
    h => Entry(aliasing, r, h)
  }

  /** The answer of `Block`, given the order in which it walks its index. */
  function BlockAlong(aliasing: Aliasing, r: Resolved, order: seq<string>): Outcome<Block> {
    var transactions :- Walk(Entries(aliasing, r), order);
    Ok(Block(Identifier(r.block), ParentIdentifier(r.block), transactions))
  }

  /** What a call of `Block` can end with: its walk is any enumeration of the deploys. */
  ghost predicate IsOutcome(aliasing: Aliasing, r: Resolved, out: Outcome<Block>) {
    exists order :: Enumerates(order, Keys(r)) && BlockAlong(aliasing, r, order) == out
  }

  // ---------- the client's methods

  method FetchBlock(node: Node, id: Option<PartialBlockIdentifier>)
    returns (r: Outcome<(BlockResponse, seq<TransferCell>)>)
    ensures match Fetch(node, id)
            case Ok(f) => r.Ok? && r.value.0 == f.block && Values(r.value.1) == f.transfers
            case Err(e) => r == Err(e)
            case Panic => false
  {
    var block := ZERO_BLOCK;
    var blockTransfers: seq<Transfer> := [];
    if id.Some? {
      if id.value.hash.Some? {
        var answer := node.blockByHash(id.value.hash.value);
        if answer.None? {
          return Err(CouldNotGetBlock);
        }
        block := answer.value;
        var transfers := node.transfersByHash(id.value.hash.value);
        if transfers.None? {
          return Err(CouldNotGetTransfers);
        }
        blockTransfers := transfers.value;
      }
      if id.value.index.Some? {
        var index := WrapUint64(id.value.index.value);
        var answer := node.blockByHeight(index);
        if answer.None? {
          return Err(CouldNotGetBlock);
        }
        block := answer.value;
        var transfers := node.transfersByHeight(WrapUint64(id.value.index.value));
        if transfers.None? {
          return Err(CouldNotGetTransfers);
        }
        blockTransfers := transfers.value;
      }
    }
    if id.None? {
      var answer := node.latestBlock;
      if answer.None? {
        return Err(CouldNotGetBlock);
      }
      block := answer.value;
      var transfers := node.latestTransfers;
      if transfers.None? {
        return Err(CouldNotGetTransfers);
      }
      blockTransfers := transfers.value;
    }
    var cells := NewTransferSlice(blockTransfers);
    return Ok((block, cells));
  }

  /** What a fully written transaction array holds. */
  function Written(slots: seq<Option<Transaction>>): (txs: seq<Transaction>)
    requires forall k :: 0 <= k < |slots| ==> slots[k].Some?
    ensures |txs| == |slots|
    ensures forall k :: 0 <= k < |slots| ==> slots[k] == Some(txs[k])
  {
    seq(|slots|, k requires 0 <= k < |slots| => slots[k].value)
  }

  /** An array of `n` slots of which the first ones are written. */
  function Slots(done: seq<Transaction>, n: nat): (slots: seq<Option<Transaction>>)
    ensures |slots| == n
    ensures |done| == n ==> (forall k :: 0 <= k < n ==> slots[k] == Some(done[k]))
  {
    seq(n, k requires 0 <= k => if k < |done| then Some(done[k]) else None)
  }

  lemma SlotWritten(done: seq<Transaction>, n: nat, t: Transaction)
    requires |done| < n
    ensures Slots(done, n)[|done| := Some(t)] == Slots(done + [t], n)
    ensures Slots(done, n)[|done|] == None
  {
  }

  /** The body of the walk, for one deploy of the index. */
  method VisitDeploy(node: Node, deployHash: string, transfers: seq<TransferCell>, block: BlockResponse,
                     validatorMainPurse: string, ghost aliasing: Aliasing, ghost r: Resolved)
    returns (out: Outcome<Transaction>)
    requires r.block == block && r.proposerPurse == validatorMainPurse && r.settle == Settler(node, block)
    requires Values(transfers) == Group(aliasing, r.transfers, deployHash)
    ensures out == Entries(aliasing, r)(deployHash)
  {
    out := CreateRosTransaction(node, deployHash, transfers, block, validatorMainPurse);
    assert r.settle(deployHash) == Settle(node, deployHash, block);
  }

  /** The walk over the index, which Go makes in an unspecified order: any key not yet visited comes
      next. Every slot of the array, made as long as the index, is written once. */
  method FillTransactions(node: Node, index: map<string, seq<TransferCell>>, block: BlockResponse,
                          validatorMainPurse: string, ghost aliasing: Aliasing, ghost r: Resolved)
    returns (out: Outcome<seq<Transaction>>)
    requires r.block == block && r.proposerPurse == validatorMainPurse && r.settle == Settler(node, block)
    requires forall h :: h in index ==> Values(index[h]) == Group(aliasing, r.transfers, h)
    ensures exists order :: Enumerates(order, index.Keys) && Walk(Entries(aliasing, r), order) == out
  {
    ghost var entries := Entries(aliasing, r);
    var transactions := new Option<Transaction>[|index|](_ => None);
    ghost var order: seq<string> := [];
    ghost var done: seq<Transaction> := [];
    var i := 0;
    var remaining := index.Keys;
    while remaining != {}
      invariant |done| == i && IsPartial(entries, index.Keys, remaining, order, done)
      invariant transactions[..] == Slots(done, |index|)
      decreases remaining
    {
      var deployHash :| deployHash in remaining;
      assert Values(index[deployHash]) == old(Values(index[deployHash]));
      var transaction := VisitDeploy(node, deployHash, index[deployHash], block, validatorMainPurse, aliasing, r);
      if !transaction.Ok? {
        ghost var whole := FailedWalk(entries, index.Keys, remaining, order, done, deployHash);
        return transaction.PropagateFailure();
      }
      PartialStep(entries, index.Keys, remaining, order, done, deployHash);
      remaining, order := remaining - {deployHash}, order + [deployHash];
      SlotWritten(done, |index|, transaction.value);
      transactions[i] := Some(transaction.value);
      done := done + [transaction.value];
      i := i + 1;
    }
    WalkDone(entries, index.Keys, order, done);
    assert transactions[..] == Slots(done, |index|);
    var written := Written(transactions[..]);
    assert written == done;
    out := Ok(written);
  }

  /** The walk and the answer, once the proposer's purse is known. */
  method AnswerBlock(node: Node, block: BlockResponse, index: map<string, seq<TransferCell>>,
                     validatorMainPurse: string, ghost aliasing: Aliasing, ghost r: Resolved)
    returns (out: Outcome<Block>)
    requires r.block == block && r.proposerPurse == validatorMainPurse && r.settle == Settler(node, block)
    requires index.Keys == Keys(r)
    requires forall h :: h in index ==> Values(index[h]) == Group(aliasing, r.transfers, h)
    ensures IsOutcome(aliasing, r, out)
  {
    var blockIdentifier := BlockIdentifier(block.hash, WrapInt64(block.height));
    var parentBlockIdentifier := blockIdentifier;
    if blockIdentifier.index != GENESIS_BLOCK_INDEX {
      parentBlockIdentifier := BlockIdentifier(block.parentHash, WrapInt64(blockIdentifier.index - 1));
    }
    var transactions := FillTransactions(node, index, block, validatorMainPurse, aliasing, r);
    ghost var order :| Enumerates(order, index.Keys) && Walk(Entries(aliasing, r), order) == transactions;
    out := if transactions.Ok?
           then Ok(Block(blockIdentifier, parentBlockIdentifier, transactions.value))
           else transactions.PropagateFailure();
    assert BlockAlong(aliasing, r, order) == out;
  }

  /** The rest of `Block`, once the index is built. */
  method FinishBlock(node: Node, block: BlockResponse, index: map<string, seq<TransferCell>>,
                     ghost aliasing: Aliasing, ghost transfers: seq<Transfer>)
    returns (out: Outcome<Block>)
    requires index.Keys == DeployKeys(transfers, block.deployHashes)
    requires forall h :: h in index ==> Values(index[h]) == Group(aliasing, transfers, h)
    ensures match ProposerPurse(node, block)
            case Ok(purse) => IsOutcome(aliasing, Resolved(block, transfers, purse, Settler(node, block)), out)
            case Err(e) => out == Err(e)
            case Panic => out == Panic
  {
    var purse := GetMainPurseFromPublicKey(node, block.proposer, block.stateRootHash);
    if !purse.Ok? {
      return if purse.Panic? then Panic else Err(NoValidatorPurse);
    }
    ghost var r := Resolved(block, transfers, purse.value, Settler(node, block));
    out := AnswerBlock(node, block, index, purse.value, aliasing, r);
  }

  /** `Block` as the code has it. */
  method GetBlock(node: Node, id: Option<PartialBlockIdentifier>) returns (out: Outcome<Block>)
    ensures match Resolve(node, id)
            case Ok(r) => IsOutcome(Shared, r, out)
            case Err(e) => out == Err(e)
            case Panic => out == Panic
  {
    var fetched := FetchBlock(node, id);
    if !fetched.Ok? {
      return fetched.PropagateFailure();
    }
    var (block, blockTransfers) := fetched.value;
    ghost var transfers := Values(blockTransfers);
    var index := GroupByDeployAsWritten(blockTransfers, block.deployHashes);
    out := FinishBlock(node, block, index, Shared, transfers);
  }

  /** `Block` as meant: the same, with each transfer's own address in the index. */
  method GetBlockAsMeant(node: Node, id: Option<PartialBlockIdentifier>) returns (out: Outcome<Block>)
    ensures match Resolve(node, id)
            case Ok(r) => IsOutcome(Own, r, out)
            case Err(e) => out == Err(e)
            case Panic => out == Panic
  {
    var fetched := FetchBlock(node, id);
    if !fetched.Ok? {
      return fetched.PropagateFailure();
    }
    var (block, blockTransfers) := fetched.value;
    ghost var transfers := Values(blockTransfers);
    var index := GroupByDeployAsMeant(blockTransfers, block.deployHashes);
    out := FinishBlock(node, block, index, Own, transfers);
  }
}
