/** What `Block` answers, whatever the order of its walk, and how `BlockTransaction` compares with it. */
module Agreement {
  import opened GoRuntime
  import opened Hex
  import opened Casper
  import opened Rosetta
  import opened Addressing
  import opened Transactions
  import opened Grouping
  import opened Sequences
  import opened Walks
  import opened Blocks

  // ---------- which block an identifier names

  /** `Balance` and `Block` read one block for an identifier. */
  lemma SameHeader(node: Node, id: Option<PartialBlockIdentifier>)
    requires Fetch(node, id).Ok?
    ensures HeaderBlock(node, id) == Ok(Fetch(node, id).value.block)
  {
  }

  /** Given both parts, `Block` takes the height and `GetBlockResponse` the hash: they name one block
      exactly when the node has one block for both. */
  lemma IdentifierPrecedence(node: Node, hash: string, index: int64)
    requires Fetch(node, Some(PartialBlockIdentifier(Some(hash), Some(index)))).Ok?
    ensures var id := PartialBlockIdentifier(Some(hash), Some(index));
            GetBlockResponse(node, id) == Ok(Fetch(node, Some(id)).value.block) <==>
            node.blockByHash(hash) == node.blockByHeight(WrapUint64(index))
  {
  }

  // ---------- BlockTransaction

  /** Unlike `Block`, this prefers the hash when both parts are given, and refuses when none is. */
  function GetBlockResponse(node: Node, id: PartialBlockIdentifier): Outcome<BlockResponse> {
    if id.hash.Some? then Require(node.blockByHash(id.hash.value), CouldNotGetBlock)
    else if id.index.Some? then Require(node.blockByHeight(WrapUint64(id.index.value)), CouldNotGetBlock)
    else Err(InvalidBlockIdentifier)
  }

  /** A hash names the block with that hash, an index alone the block at that height. */
  lemma BlockResponseExact(node: Node, id: PartialBlockIdentifier, b: BlockResponse)
    ensures GetBlockResponse(node, id) == Ok(b) <==>
            if id.hash.Some? then node.blockByHash(id.hash.value) == Some(b)
            else id.index.Some? && node.blockByHeight(WrapUint64(id.index.value)) == Some(b)
    ensures GetBlockResponse(node, id) == Err(InvalidBlockIdentifier) <==> id.hash.None? && id.index.None?
  {
  }

  /** The block comes from the deploy's first execution, the transfers from the identifier, a pointer
      followed once the block is there. */
  function TransactionAt(node: Node, id: Option<BlockIdentifier>, deployHash: Option<string>): (r: Outcome<Transaction>)
  {
    var hash :- Require(deployHash, NullTransactionIdentifier);
    var answer :- Require(node.deploy(hash), CouldNotGetDeploy);
    if answer.executionResults == [] then Err(InvalidDeploy) else
    var block :- Require(node.blockByHash(answer.executionResults[0].blockHash), CouldNotGetBlock);
    if id.None? then Panic else
    var transfers :- Require(node.transfersByHash(id.value.hash), CouldNotGetTransfers);
    var proposerPurse :- ProposerPurse(node, block);
    CreateTransaction(node, answer.deploy.hash, Filter(transfers, answer.deploy.hash), block, proposerPurse)
  }

  method BlockTransaction(node: Node, blockIdentifier: Option<BlockIdentifier>, transactionIdentifier: Option<string>)
    returns (r: Outcome<Transaction>)
    ensures r == TransactionAt(node, blockIdentifier, transactionIdentifier)
  {
    if transactionIdentifier.None? {
      return Err(NullTransactionIdentifier);
    }
    var deploy := node.deploy(transactionIdentifier.value);
    if deploy.None? {
      return Err(CouldNotGetDeploy);
    }
    if |deploy.value.executionResults| == 0 {
      return Err(InvalidDeploy);
    }
    var blkIdentifier := PartialBlockIdentifier(Some(deploy.value.executionResults[0].blockHash), None);
    var block := GetBlockResponse(node, blkIdentifier);
    if !block.Ok? {
      return block.PropagateFailure();
    }
    if blockIdentifier.None? {
      return Panic;
    }
    var blockTransfers := node.transfersByHash(blockIdentifier.value.hash);
    if blockTransfers.None? {
      return Err(CouldNotGetTransfers);
    }
    var cells := NewTransferSlice(blockTransfers.value);
    var transfers := CollectTransfers(cells, deploy.value.deploy.hash);
    var purse := GetMainPurseFromPublicKey(node, block.value.proposer, block.value.stateRootHash);
    if purse.Panic? {
      return Panic;
    }
    if purse.Err? {
      return Err(NoValidatorPurse);
    }
    r := CreateRosTransaction(node, deploy.value.deploy.hash, transfers, block.value, purse.value);
  }

  /** The loop that keeps the addresses of the transfers of one deploy: pointers to their own cells. */
  method CollectTransfers(cells: seq<TransferCell>, deployHash: string) returns (transfers: seq<TransferCell>)
    ensures transfers == FilterCells(cells, deployHash)
    ensures Values(transfers) == Filter(Values(cells), deployHash)
  {
    transfers := [];
    for i := 0 to |cells|
      invariant transfers == FilterCells(cells[..i], deployHash)
    {
      assert cells[..i + 1][..i] == cells[..i];
      if cells[i].value.deployHash == deployHash {
        transfers := transfers + [cells[i]];
      }
    }
    assert cells[..|cells|] == cells;
    FilterCellsValues(cells, deployHash);
  }

  // ---------- all or nothing, in any order

  function HashOf(): Transaction -> string {
    (tx: Transaction) => tx.hash
  }

  lemma EntryHash(aliasing: Aliasing, r: Resolved, h: string)
    requires Entry(aliasing, r, h).Ok?
    ensures Entry(aliasing, r, h).value.hash == h
  {
  }

  lemma EntryHashes(aliasing: Aliasing, r: Resolved)
    ensures forall h :: Entries(aliasing, r)(h).Ok? ==> HashOf()(Entries(aliasing, r)(h).value) == h
  {
    forall h | Entries(aliasing, r)(h).Ok?
      ensures HashOf()(Entries(aliasing, r)(h).value) == h
    {
      EntryHash(aliasing, r, h);
    }
  }

  /** `Block` succeeds exactly when every deploy of the block does, and otherwise ends as one of them, in
      whatever order it walks. */
  lemma AllOrNothing(aliasing: Aliasing, r: Resolved, out: Outcome<Block>)
    requires IsOutcome(aliasing, r, out)
    ensures out.Ok? <==> forall h :: h in Keys(r) ==> Entry(aliasing, r, h).Ok?
    ensures !out.Ok? ==> exists h :: h in Keys(r) && Entry(aliasing, r, h).IsFailure()
                                     && out == Entry(aliasing, r, h).PropagateFailure()
  {
    var order :| Enumerates(order, Keys(r)) && BlockAlong(aliasing, r, order) == out;
    EntryHashes(aliasing, r);
    WholeWalk(Entries(aliasing, r), HashOf(), Keys(r), order);
    assert forall h :: Entries(aliasing, r)(h) == Entry(aliasing, r, h);
  }

  /** An answer that `Block` can give. */
  ghost predicate IsAnswer(aliasing: Aliasing, r: Resolved, b: Block) {
    IsOutcome(aliasing, r, Ok(b))
  }

  /** The block lists the transactions of its deploys, each once, under distinct hashes. */
  ghost predicate IsInFull(aliasing: Aliasing, r: Resolved, b: Block) {
    && b.id == Identifier(r.block) && b.parent == ParentIdentifier(r.block)
    && |b.transactions| == |Keys(r)|
    && AreDistinctHashes(b.transactions)
    && (forall tx :: tx in b.transactions <==> tx.hash in Keys(r) && Entry(aliasing, r, tx.hash) == Ok(tx))
  }

  ghost predicate AreDistinctHashes(txs: seq<Transaction>) {
    forall i, j :: 0 <= i < j < |txs| ==> txs[i].hash != txs[j].hash
  }

  lemma AnswerIsInFull(aliasing: Aliasing, r: Resolved, b: Block)
    requires IsAnswer(aliasing, r, b)
    ensures IsInFull(aliasing, r, b)
  {
    var order :| Enumerates(order, Keys(r)) && BlockAlong(aliasing, r, order) == Ok(b);
    EntryHashes(aliasing, r);
    WholeWalk(Entries(aliasing, r), HashOf(), Keys(r), order);
  }

  function HashesInOrder(txs: seq<Transaction>): (order: seq<string>)
    ensures |order| == |txs| && forall i :: 0 <= i < |txs| ==> order[i] == txs[i].hash
  {
    seq(|txs|, i requires 0 <= i < |txs| => txs[i].hash)
  }

  lemma HashesCover(aliasing: Aliasing, r: Resolved, b: Block)
    requires IsInFull(aliasing, r, b)
    ensures Enumerates(HashesInOrder(b.transactions), Keys(r))
    ensures forall i :: 0 <= i < |b.transactions| ==>
              Entries(aliasing, r)(HashesInOrder(b.transactions)[i]) == Ok(b.transactions[i])
  {
    var order := HashesInOrder(b.transactions);
    forall i | 0 <= i < |order|
      ensures order[i] in Keys(r) && Entries(aliasing, r)(order[i]) == Ok(b.transactions[i])
    {
      assert b.transactions[i] in b.transactions;
    }
    EnumeratesBySize(order, Keys(r));
  }

  /** All the answers `Block` can give, its walk being in any order, are the blocks that list the
      transactions of their deploys, each once. */
  lemma AnswersExactly(aliasing: Aliasing, r: Resolved, b: Block)
    ensures IsAnswer(aliasing, r, b) <==> IsInFull(aliasing, r, b)
  {
    if IsAnswer(aliasing, r, b) {
      AnswerIsInFull(aliasing, r, b);
    }
    if IsInFull(aliasing, r, b) {
      var order := HashesInOrder(b.transactions);
      HashesCover(aliasing, r, b);
      WalkOf(Entries(aliasing, r), order, b.transactions);
      assert BlockAlong(aliasing, r, order) == Ok(b);
    }
  }

  /** Two calls on one identifier succeed together, and their answers differ in the order of the
      transactions alone. */
  lemma BlockOrderIndependent(aliasing: Aliasing, r: Resolved, out: Outcome<Block>, out': Outcome<Block>)
    requires IsOutcome(aliasing, r, out) && IsOutcome(aliasing, r, out')
    ensures out.Ok? <==> out'.Ok?
    ensures out.Ok? ==> SameBlock(out.value, out'.value)
  {
    AllOrNothing(aliasing, r, out);
    AllOrNothing(aliasing, r, out');
    if out.Ok? {
      AnswersSame(aliasing, r, out.value, out'.value);
    }
  }

  /** Equal up to the order of the transactions. */
  predicate SameBlock(b: Block, c: Block) {
    b.id == c.id && b.parent == c.parent && multiset(b.transactions) == multiset(c.transactions)
  }

  lemma AnswersSame(aliasing: Aliasing, r: Resolved, b: Block, c: Block)
    requires IsAnswer(aliasing, r, b) && IsAnswer(aliasing, r, c)
    ensures SameBlock(b, c)
  {
    AnswerIsInFull(aliasing, r, b);
    AnswerIsInFull(aliasing, r, c);
    SameElements(b.transactions, c.transactions);
  }

  /** No deploy is missing. */
  lemma EveryEntryOk(aliasing: Aliasing, r: Resolved, b: Block)
    requires IsInFull(aliasing, r, b)
    ensures forall h :: h in Keys(r) ==>
              exists i :: (0 <= i < |b.transactions|
                           && b.transactions[i].hash == h && Entry(aliasing, r, h) == Ok(b.transactions[i]))
  {
    HashesCover(aliasing, r, b);
    var order := HashesInOrder(b.transactions);
    forall h | h in Keys(r)
      ensures exists i :: 0 <= i < |b.transactions|
                && b.transactions[i].hash == h && Entry(aliasing, r, h) == Ok(b.transactions[i])
    {
      var i :| 0 <= i < |order| && order[i] == h;
      assert Entries(aliasing, r)(order[i]) == Ok(b.transactions[i]);
    }
  }

  /** The deploys of the body and those of the transfers are answered, and no other. */
  lemma DeploysAnswered(aliasing: Aliasing, r: Resolved, b: Block, h: string)
    requires IsAnswer(aliasing, r, b)
    ensures (exists tx :: tx in b.transactions && tx.hash == h) <==>
            h in r.block.deployHashes || exists t :: t in r.transfers && t.deployHash == h
  {
    AnswerIsInFull(aliasing, r, b);
    DeployKeysExact(r.transfers, r.block.deployHashes);
    if h in Keys(r) {
      EveryEntryOk(aliasing, r, b);
      var i :| 0 <= i < |b.transactions| && b.transactions[i].hash == h;
      assert b.transactions[i] in b.transactions;
    }
  }

  /** The operations of each transaction of an answer: what its deploy settled and, if it succeeded, its
      own transfers in the block's order; as written, the last transfer as often. */
  lemma AnswerShape(aliasing: Aliasing, r: Resolved, b: Block, tx: Transaction)
    requires IsAnswer(aliasing, r, b) && tx in b.transactions
    ensures r.settle(tx.hash).Ok?
    ensures var s, ops, own := r.settle(tx.hash).value, tx.operations, Filter(r.transfers, tx.hash);
            && |ops| == (if s.failed then 2 else 2 + 2 * |own|)
            && (forall k :: 0 <= k < 2 ==>
                  ops[k].kind == FeeOp && ops[k].status == (if s.failed then FAILURE else SUCCESS))
            && PurseWithoutIndex(s.payer) == Ok(ops[0].address) && ops[0].amount == "-" + s.fee
            && PurseWithoutIndex(r.proposerPurse) == Ok(ops[1].address) && ops[1].amount == s.fee
            && (!s.failed && aliasing.Own? ==> AreTransferPairs(ops[2..], own))
            && (!s.failed && aliasing.Shared? ==> forall j :: 0 <= j < |own| ==>
                  IsTransferPair(ops[2 + 2 * j], ops[3 + 2 * j], r.transfers[|r.transfers| - 1]))
  {
    AnswerIsInFull(aliasing, r, b);
    var s, group := r.settle(tx.hash).value, Group(aliasing, r.transfers, tx.hash);
    TransactionShape(tx.hash, s, group, r.proposerPurse);
    if !s.failed && aliasing.Shared? {
      var ops := tx.operations;
      forall j | 0 <= j < |group|
        ensures IsTransferPair(ops[2 + 2 * j], ops[3 + 2 * j], r.transfers[|r.transfers| - 1])
      {
        assert IsTransferPair(ops[2..][2 * j], ops[2..][2 * j + 1], group[j]);
      }
    }
  }

  // ---------- when there is an answer

  /** The purses that the transaction of a deploy mentions have a separator. */
  predicate CanPost(aliasing: Aliasing, r: Resolved, h: string) {
    && r.settle(h).Ok?
    && '-' in r.settle(h).value.payer && '-' in r.proposerPurse
    && (r.settle(h).value.failed
        || forall t :: t in Group(aliasing, r.transfers, h) ==> '-' in t.source && '-' in t.target)
  }

  /** A deploy has a transaction exactly when it settles and each purse to be posted has a separator; a
      purse without one is a panic. */
  lemma EntryOutcome(aliasing: Aliasing, r: Resolved, h: string)
    ensures Entry(aliasing, r, h).Ok? <==> CanPost(aliasing, r, h)
    ensures !r.settle(h).Ok? ==> Entry(aliasing, r, h) == r.settle(h).PropagateFailure()
    ensures r.settle(h).Ok? && !CanPost(aliasing, r, h) ==> Entry(aliasing, r, h).Panic?
  {
    if r.settle(h).Ok? {
      PurseCharacterised(r.settle(h).value.payer, "");
      PurseCharacterised(r.proposerPurse, "");
      TransferOpsOutcome(Group(aliasing, r.transfers, h));
    }
  }

  /** `Block` has an answer for a block exactly when each of its deploys can be posted. */
  lemma AnswerExists(aliasing: Aliasing, r: Resolved)
    ensures (exists b :: IsAnswer(aliasing, r, b)) <==> forall h :: h in Keys(r) ==> CanPost(aliasing, r, h)
  {
    var order := Enumeration(Keys(r));
    var out := BlockAlong(aliasing, r, order);
    assert IsOutcome(aliasing, r, out);
    AllOrNothing(aliasing, r, out);
    forall h
      ensures Entry(aliasing, r, h).Ok? <==> CanPost(aliasing, r, h)
    {
      EntryOutcome(aliasing, r, h);
    }
    if out.Ok? {
      assert IsAnswer(aliasing, r, out.value);
    }
    if b :| IsAnswer(aliasing, r, b) {
      AllOrNothing(aliasing, r, Ok(b));
    }
  }

  /** The comment on `Block` promises the current block for an identifier with neither part; the code
      looks up the purse of an empty proposer key instead, and panics on every node. */
  lemma EmptyIdentifierPanics(node: Node)
    ensures Resolve(node, Some(PartialBlockIdentifier(None, None))).Panic?
  {
  }

  // ---------- Block and BlockTransaction

  /** The node answers about a block in the same way by its hash, and its deploys name the block back. */
  ghost predicate IsConsistent(node: Node, r: Resolved) {
    && node.blockByHash(r.block.hash) == Some(r.block)
    && node.transfersByHash(r.block.hash) == Some(r.transfers)
    && forall h :: h in Keys(r) && node.deploy(h).Some? ==>
         && node.deploy(h).value.deploy.hash == h
         && (node.deploy(h).value.executionResults != [] ==>
               node.deploy(h).value.executionResults[0].blockHash == r.block.hash)
  }

  /** On a consistent node `BlockTransaction` ends as the visit of that deploy in `Block` as meant,
      errors and panics included. */
  lemma SameOutcome(node: Node, id: Option<PartialBlockIdentifier>, r: Resolved, h: string)
    requires Resolve(node, id) == Ok(r) && IsConsistent(node, r) && h in Keys(r)
    ensures TransactionAt(node, Some(Identifier(r.block)), Some(h)) == Entry(Own, r, h)
  {
  }

  /** What `BlockTransaction` looks up: the block from the deploy's first execution, the transfers from
      the identifier. */
  ghost predicate IsLookedUp(node: Node, id: BlockIdentifier, hash: string, d: DeployResponse, r: Resolved) {
    && node.deploy(hash) == Some(d) && d.executionResults != []
    && node.blockByHash(d.executionResults[0].blockHash) == Some(r.block)
    && node.transfersByHash(id.hash) == Some(r.transfers)
    && MainPurse(node, r.block.proposer, r.block.stateRootHash) == Ok(r.proposerPurse)
    && r.settle == Settler(node, r.block)
  }

  /** On any node, `BlockTransaction` answers exactly when all of it is there and the deploy can be posted
      from it. */
  lemma TransactionExact(node: Node, id: Option<BlockIdentifier>, hash: Option<string>, tx: Transaction)
    ensures TransactionAt(node, id, hash) == Ok(tx) <==>
            && id.Some? && hash.Some?
            && exists d, r :: IsLookedUp(node, id.value, hash.value, d, r) && Entry(Own, r, d.deploy.hash) == Ok(tx)
  {
    if TransactionAt(node, id, hash) == Ok(tx) {
      var d := node.deploy(hash.value).value;
      var block := node.blockByHash(d.executionResults[0].blockHash).value;
      var purse := MainPurse(node, block.proposer, block.stateRootHash).value;
      var r := Resolved(block, node.transfersByHash(id.value.hash).value, purse, Settler(node, block));
      assert IsLookedUp(node, id.value, hash.value, d, r) && Entry(Own, r, d.deploy.hash) == Ok(tx);
    }
  }

  /** The first part that is missing decides how it fails; with all parts there, it ends as the visit of
      the deploy with these transfers. */
  lemma TransactionOutcome(node: Node, id: Option<BlockIdentifier>, hash: Option<string>)
    ensures var out := TransactionAt(node, id, hash);
            if hash.None? then out == Err(NullTransactionIdentifier)
            else if node.deploy(hash.value).None? then out == Err(CouldNotGetDeploy)
            else
              var d := node.deploy(hash.value).value;
              if d.executionResults == [] then out == Err(InvalidDeploy)
              else if node.blockByHash(d.executionResults[0].blockHash).None? then out == Err(CouldNotGetBlock)
              else if id.None? then out == Panic
              else if node.transfersByHash(id.value.hash).None? then out == Err(CouldNotGetTransfers)
              else
                var block := node.blockByHash(d.executionResults[0].blockHash).value;
                match MainPurse(node, block.proposer, block.stateRootHash)
                case Err(_) => out == Err(NoValidatorPurse)
                case Panic => out == Panic
                case Ok(purse) =>
                  var ts := node.transfersByHash(id.value.hash).value;
                  out == Entry(Own, Resolved(block, ts, purse, Settler(node, block)), d.deploy.hash)
  {
  }

  /** The block of the identifier is not compared with the deploy's: asked for with another block, a deploy
      is answered from its own block's header and the other block's transfers. That is its transaction
      exactly when it did not succeed, or those transfers look like its own one by one. */
  lemma OtherBlockExact(node: Node, id: Option<PartialBlockIdentifier>, r: Resolved, h: string,
                        other: BlockIdentifier, ts: seq<Transfer>)
    requires Resolve(node, id) == Ok(r) && IsConsistent(node, r) && h in Keys(r)
    requires node.transfersByHash(other.hash) == Some(ts)
    ensures TransactionAt(node, Some(other), Some(h)) == Entry(Own, r.(transfers := ts), h)
    ensures Entry(Own, r, h).Ok? ==>
              var own, others := Filter(r.transfers, h), Filter(ts, h);
              (TransactionAt(node, Some(other), Some(h)) == Entry(Own, r, h) <==>
               !Succeeded(r, h) || (|own| == |others| && AllLookAlike(own, others)))
  {
    if Entry(Own, r, h).Ok? && Succeeded(r, h) {
      var own, others := Filter(r.transfers, h), Filter(ts, h);
      AssembleEqual(h, r.settle(h).value, own, others, r.proposerPurse);
      if |own| == |others| {
        OpsEqual(own, others);
      } else if TransferOps(own) == TransferOps(others) {
        TransferOpsLength(own);
        TransferOpsLength(others);
      }
    }
  }

  /** So asked for with a block that holds none of its transfers, a deploy that made some loses them. */
  lemma OtherBlockLosesTransfers(node: Node, id: Option<PartialBlockIdentifier>, r: Resolved, h: string,
                                 other: BlockIdentifier, ts: seq<Transfer>)
    requires Resolve(node, id) == Ok(r) && IsConsistent(node, r) && h in Keys(r)
    requires node.transfersByHash(other.hash) == Some(ts) && forall t :: t in ts ==> t.deployHash != h
    requires CanPost(Own, r, h)
    ensures var tx := TransactionAt(node, Some(other), Some(h));
            && tx.Ok? && |tx.value.operations| == 2
            && (tx == Entry(Own, r, h) <==> !Succeeded(r, h) || forall t :: t in r.transfers ==> t.deployHash != h)
  {
    OtherBlockExact(node, id, r, h, other, ts);
    EntryOutcome(Own, r, h);
    FilterNone(ts, h);
    FilterNone(r.transfers, h);
  }

  /** The transaction is the one of the block with that hash. */
  ghost predicate IsTheOne(tx: Transaction, h: string, b: Block) {
    exists i :: 0 <= i < |b.transactions| && b.transactions[i] == tx
                && forall j :: 0 <= j < |b.transactions| ==> (b.transactions[j].hash == h <==> j == i)
  }

  lemma EntryIsTheOne(aliasing: Aliasing, r: Resolved, b: Block, h: string)
    requires IsAnswer(aliasing, r, b) && h in Keys(r)
    ensures Entry(aliasing, r, h).Ok? && IsTheOne(Entry(aliasing, r, h).value, h, b)
  {
    AnswerIsInFull(aliasing, r, b);
    EveryEntryOk(aliasing, r, b);
    var i :| 0 <= i < |b.transactions|
      && b.transactions[i].hash == h && Entry(aliasing, r, h) == Ok(b.transactions[i]);
    OneWithHash(b.transactions, i);
  }

  lemma OneWithHash(txs: seq<Transaction>, i: nat)
    requires i < |txs| && AreDistinctHashes(txs)
    ensures forall j :: 0 <= j < |txs| ==> (txs[j].hash == txs[i].hash <==> j == i)
  {
  }

  /** `BlockTransaction` finds the one transaction of `Block` (as meant) with that hash. */
  lemma BlockTransactionAgrees(node: Node, id: Option<PartialBlockIdentifier>, r: Resolved, b: Block, h: string)
    requires Resolve(node, id) == Ok(r) && IsConsistent(node, r) && h in Keys(r)
    requires IsAnswer(Own, r, b)
    ensures TransactionAt(node, Some(b.id), Some(h)).Ok?
    ensures IsTheOne(TransactionAt(node, Some(b.id), Some(h)).value, h, b)
  {
    AnswerIsInFull(Own, r, b);
    SameOutcome(node, id, r, h);
    EntryIsTheOne(Own, r, b, h);
  }

  // ---------- the loop as written

  /** The two transfers give the same operations. */
  predicate LooksLike(t: Transfer, u: Transfer) {
    && t.amount == u.amount
    && PurseWithoutIndex(t.source) == PurseWithoutIndex(u.source)
    && PurseWithoutIndex(t.target) == PurseWithoutIndex(u.target)
  }

  lemma PairsEqual(t: Transfer, u: Transfer, n: nat)
    requires TransferPair(t, n).Ok?
    ensures TransferPair(t, n) == TransferPair(u, n) <==> LooksLike(t, u)
  {
    if TransferPair(t, n) == TransferPair(u, n) {
      var p := TransferPair(t, n).value;
      assert p[1].amount == t.amount && p[1].amount == u.amount;
      assert p[0].address == PurseWithoutIndex(t.source).value;
      assert p[0].address == PurseWithoutIndex(u.source).value;
      assert p[1].address == PurseWithoutIndex(t.target).value;
      assert p[1].address == PurseWithoutIndex(u.target).value;
    }
  }

  lemma {:induction false} OpsEqual(ts: seq<Transfer>, us: seq<Transfer>)
    requires |ts| == |us| && TransferOps(ts).Ok?
    ensures TransferOps(ts) == TransferOps(us) <==> AllLookAlike(ts, us)
  {
    if ts != [] {
      var n := |ts| - 1;
      OpsEqual(ts[..n], us[..n]);
      PairsEqual(ts[n], us[n], n);
      if TransferOps(us).Ok? {
        TransferOpsLength(ts[..n]);
        TransferOpsLength(us[..n]);
        AppendEqual(TransferOps(ts[..n]).value, TransferPair(ts[n], n).value,
                    TransferOps(us[..n]).value, TransferPair(us[n], n).value);
      }
      AllLookAlikeStep(ts, us);
    }
  }

  predicate AllLookAlike(ts: seq<Transfer>, us: seq<Transfer>)
    requires |ts| == |us|
  {
    forall k :: 0 <= k < |ts| ==> LooksLike(ts[k], us[k])
  }

  lemma AllLookAlikeStep(ts: seq<Transfer>, us: seq<Transfer>)
    requires |ts| == |us| && ts != []
    ensures var n := |ts| - 1;
            AllLookAlike(ts, us) <==> AllLookAlike(ts[..n], us[..n]) && LooksLike(ts[n], us[n])
  {
    var n := |ts| - 1;
    assert forall k :: 0 <= k < n ==> ts[..n][k] == ts[k] && us[..n][k] == us[k];
  }

  lemma AppendEqual<T>(s: seq<T>, t: seq<T>, s': seq<T>, t': seq<T>)
    requires |s| == |s'|
    ensures s + t == s' + t' <==> s == s' && t == t'
  {
    assert s == (s + t)[..|s|] && t == (s + t)[|s|..];
    assert s' == (s' + t')[..|s|] && t' == (s' + t')[|s|..];
  }

  predicate Succeeded(r: Resolved, h: string) {
    r.settle(h).Ok? && !r.settle(h).value.failed
  }

  predicate LooksLikeLast(r: Resolved, t: Transfer)
    requires t in r.transfers
  {
    LooksLike(t, r.transfers[|r.transfers| - 1])
  }

  /** Sharing the loop variable does not show in the transaction of the deploy. */
  predicate SharingHarmless(r: Resolved, h: string) {
    Succeeded(r, h) ==> forall t :: t in r.transfers && t.deployHash == h ==> LooksLikeLast(r, t)
  }

  /** As written, the visit of a deploy ends as intended exactly when the deploy did not succeed, or each of
      its transfers looks like the last of the block, or it can be posted neither way. */
  lemma SharedEntryExact(r: Resolved, h: string)
    ensures Entry(Shared, r, h) == Entry(Own, r, h) <==>
            SharingHarmless(r, h) || (!CanPost(Own, r, h) && !CanPost(Shared, r, h))
    ensures SharingHarmless(r, h) ==> (CanPost(Own, r, h) <==> CanPost(Shared, r, h))
  {
    EntryOutcome(Own, r, h);
    EntryOutcome(Shared, r, h);
    if CanPost(Own, r, h) {
      PostedExact(r, h);
    }
    if SharingHarmless(r, h) {
      HarmlessPosts(r, h);
    }
  }

  lemma PostedExact(r: Resolved, h: string)
    requires Entry(Own, r, h).Ok?
    ensures Entry(Shared, r, h) == Entry(Own, r, h) <==> SharingHarmless(r, h)
  {
    var own, shared := Filter(r.transfers, h), Group(Shared, r.transfers, h);
    if r.transfers == [] {
      assert own == [] && shared == [];
    } else if Succeeded(r, h) {
      AssembleEqual(h, r.settle(h).value, own, shared, r.proposerPurse);
      OpsEqual(own, shared);
      SharedLookAlike(r, h);
    }
  }

  lemma SharedLookAlike(r: Resolved, h: string)
    requires r.transfers != [] && Succeeded(r, h)
    ensures AllLookAlike(Filter(r.transfers, h), Group(Shared, r.transfers, h)) <==> SharingHarmless(r, h)
  {
    var own, last := Filter(r.transfers, h), r.transfers[|r.transfers| - 1];
    FilterMembers(r.transfers, h);
    assert forall k :: 0 <= k < |own| ==> own[k] in own;
    assert AllLookAlike(own, Group(Shared, r.transfers, h)) <==> (forall t :: t in own ==> LooksLike(t, last));
  }

  /** Transfers that look alike have separators alike. */
  lemma HarmlessPosts(r: Resolved, h: string)
    requires SharingHarmless(r, h)
    ensures CanPost(Own, r, h) <==> CanPost(Shared, r, h)
  {
    var own, shared := Filter(r.transfers, h), Group(Shared, r.transfers, h);
    FilterMembers(r.transfers, h);
    if Succeeded(r, h) && own != [] {
      var last := r.transfers[|r.transfers| - 1];
      assert own[0] in own && shared[0] in shared && shared[0] == last;
      PurseCharacterised(last.source, "");
      PurseCharacterised(last.target, "");
      forall t | t in own
        ensures '-' in t.source && '-' in t.target <==> '-' in last.source && '-' in last.target
      {
        PurseCharacterised(t.source, "");
        PurseCharacterised(t.target, "");
        assert LooksLikeLast(r, t);
      }
    }
  }

  lemma AssembleEqual(h: string, s: Settlement, ts: seq<Transfer>, us: seq<Transfer>, proposerPurse: string)
    requires !s.failed && Assemble(h, s, ts, proposerPurse).Ok?
    ensures Assemble(h, s, ts, proposerPurse) == Assemble(h, s, us, proposerPurse) <==>
            TransferOps(ts) == TransferOps(us)
  {
    if Assemble(h, s, ts, proposerPurse) == Assemble(h, s, us, proposerPurse) {
      var payer, proposer := PurseWithoutIndex(s.payer).value, PurseWithoutIndex(proposerPurse).value;
      var fees := FeeOps(SUCCESS, payer, proposer, s.fee);
      AppendEqual(fees, TransferOps(ts).value, fees, TransferOps(us).value);
    }
  }

  /** Walking in the same order, `Block` as written gives the answer meant exactly when every deploy can be
      posted as meant and each transfer of a successful deploy looks like the last one of the block. Where
      one of the two answers, the second condition alone decides whether they are equal. */
  lemma SharedBlockExact(r: Resolved, order: seq<string>)
    requires Enumerates(order, Keys(r))
    ensures BlockAlong(Own, r, order).Ok? && BlockAlong(Shared, r, order) == BlockAlong(Own, r, order) <==>
            && (forall h :: h in Keys(r) ==> CanPost(Own, r, h))
            && (forall t :: t in r.transfers && Succeeded(r, t.deployHash) ==> LooksLikeLast(r, t))
    ensures BlockAlong(Own, r, order).Ok? || BlockAlong(Shared, r, order).Ok? ==>
              (BlockAlong(Shared, r, order) == BlockAlong(Own, r, order) <==>
               forall t :: t in r.transfers && Succeeded(r, t.deployHash) ==> LooksLikeLast(r, t))
  {
    AllOrNothing(Own, r, BlockAlong(Own, r, order));
    AllOrNothing(Shared, r, BlockAlong(Shared, r, order));
    var shared, own := Entries(Shared, r), Entries(Own, r);
    forall h | h in Keys(r)
      ensures own(h).Ok? <==> CanPost(Own, r, h)
      ensures shared(h).Ok? <==> CanPost(Shared, r, h)
      ensures own(h).Ok? || shared(h).Ok? ==> (shared(h) == own(h) <==> SharingHarmless(r, h))
      ensures SharingHarmless(r, h) ==> (own(h).Ok? <==> shared(h).Ok?)
    {
      EntryOutcome(Own, r, h);
      EntryOutcome(Shared, r, h);
      SharedEntryExact(r, h);
    }
    if BlockAlong(Own, r, order).Ok? {
      WalksEqual(shared, own, order);
    }
    HarmlessForAll(r);
  }

  lemma HarmlessForAll(r: Resolved)
    ensures (forall h :: h in Keys(r) ==> SharingHarmless(r, h)) <==>
            (forall t :: t in r.transfers && Succeeded(r, t.deployHash) ==> LooksLikeLast(r, t))
  {
    if forall h :: h in Keys(r) ==> SharingHarmless(r, h) {
      forall t | t in r.transfers && Succeeded(r, t.deployHash)
        ensures LooksLikeLast(r, t)
      {
        assert t.deployHash in HashesOf(r.transfers) && SharingHarmless(r, t.deployHash);
      }
    }
  }

  /** So on a consistent node `BlockTransaction` finds the transaction that the code's `Block` answers for a
      deploy exactly when the deploy failed or each of its transfers looks like the last of the block. */
  lemma AgreementAsWritten(node: Node, id: Option<PartialBlockIdentifier>, r: Resolved, b: Block, h: string)
    requires Resolve(node, id) == Ok(r) && IsConsistent(node, r) && h in Keys(r)
    requires IsAnswer(Shared, r, b)
    ensures var tx := TransactionAt(node, Some(b.id), Some(h));
            tx.Ok? && IsTheOne(tx.value, h, b) <==> SharingHarmless(r, h)
  {
    AnswerIsInFull(Shared, r, b);
    SameOutcome(node, id, r, h);
    EntryIsTheOne(Shared, r, b, h);
    EntryOutcome(Own, r, h);
    EntryOutcome(Shared, r, h);
    SharedEntryExact(r, h);
    if Entry(Own, r, h).Ok? {
      OnlyOne(Entry(Shared, r, h).value, Entry(Own, r, h).value, h, b);
    }
  }

  lemma OnlyOne(tx: Transaction, tx': Transaction, h: string, b: Block)
    requires IsTheOne(tx, h, b)
    ensures IsTheOne(tx', h, b) <==> tx == tx'
  {
    if IsTheOne(tx', h, b) {
      var i :| 0 <= i < |b.transactions| && b.transactions[i] == tx
        && forall j :: 0 <= j < |b.transactions| ==> (b.transactions[j].hash == h <==> j == i);
      var k :| 0 <= k < |b.transactions| && b.transactions[k] == tx'
        && forall j :: 0 <= j < |b.transactions| ==> (b.transactions[j].hash == h <==> j == k);
      assert b.transactions[i].hash == h;
    }
  }

  /** What a deploy whose sharing shows does to an answer of the code's `Block`: `BlockTransaction` has
      another transaction, or panics, and `Block` as meant has no such answer. */
  lemma SharingShows(node: Node, id: Option<PartialBlockIdentifier>, r: Resolved, b: Block, h: string)
    requires Resolve(node, id) == Ok(r) && IsConsistent(node, r) && h in Keys(r)
    requires IsAnswer(Shared, r, b) && !SharingHarmless(r, h)
    ensures !IsAnswer(Own, r, b)
    ensures var tx := TransactionAt(node, Some(b.id), Some(h));
            if CanPost(Own, r, h) then tx.Ok? && !IsTheOne(tx.value, h, b) else tx.Panic?
  {
    AgreementAsWritten(node, id, r, b, h);
    AnswerIsInFull(Shared, r, b);
    SameOutcome(node, id, r, h);
    EntryOutcome(Own, r, h);
    if IsAnswer(Own, r, b) {
      BlockTransactionAgrees(node, id, r, b, h);
    }
  }

  // ---------- a node on which they disagree

  const LAST: Transfer := Transfer("d2", "c-", "d-", "2")

  /** A node whose one block holds `first`, a transfer of the deploy "d1", and then another deploy's. */
  function TwoTransferNode(first: Transfer): Node {
    var block := BlockResponse("b", 0, "", "", "01", []);
    Node(
      (_: string) => Some(block), (_: uint64) => Some(block), Some(block),
      (_: string) => Some([first, LAST]), (_: uint64) => Some([first, LAST]), Some([first, LAST]),
      (h: string) => Some(DeployResponse(Deploy(h, "01", []), [ExecutionResult("b", None, Some("0"))])),
      (_: Deploy) => None, (_: string, _: string) => Some("e-"), (_: string, _: string) => None,
      (_: seq<byte>) => [])
  }

  /** Every deploy succeeds and is paid from the purse "e-", the proposer's too. */
  ghost predicate IsTwoTransfers(r: Resolved, first: Transfer) {
    && r.transfers == [first, LAST] && r.proposerPurse == "e-" && Keys(r) == {first.deployHash, "d2"}
    && forall h :: Succeeded(r, h) && r.settle(h).value.payer == "e-"
  }

  lemma TwoTransfersResolved(first: Transfer) returns (r: Resolved)
    requires first.deployHash == "d1"
    ensures Resolve(TwoTransferNode(first), None) == Ok(r)
    ensures IsConsistent(TwoTransferNode(first), r) && IsTwoTransfers(r, first)
  {
    var node := TwoTransferNode(first);
    assert MainPurse(node, "01", "") == Ok("e-");
    r := Resolve(node, None).value;
    assert [first, LAST][0] == first && [first, LAST][1] == LAST;
    forall h
      ensures Succeeded(r, h) && r.settle(h).value.payer == "e-"
    {
      assert r.settle(h) == Settle(node, h, r.block);
    }
  }

  /** The code's `Block` answers whatever the first transfer is. */
  lemma TwoTransfersAnswer(first: Transfer, r: Resolved) returns (b: Block)
    requires IsTwoTransfers(r, first)
    ensures IsAnswer(Shared, r, b)
  {
    assert "e-"[1] == '-' && LAST.source[1] == '-' && LAST.target[1] == '-';
    AnswerExists(Shared, r);
    b :| IsAnswer(Shared, r, b);
  }

  lemma TwoTransfersShow(first: Transfer, r: Resolved)
    requires IsTwoTransfers(r, first) && first.deployHash == "d1" && !LooksLike(first, LAST)
    ensures !SharingHarmless(r, "d1")
    ensures CanPost(Own, r, "d1") <==> '-' in first.source && '-' in first.target
  {
    assert r.transfers[0] == first && r.transfers[1] == LAST && "e-"[1] == '-';
    assert LooksLikeLast(r, first) == LooksLike(first, LAST);
    FilterMembers(r.transfers, "d1");
  }

  /** The code's `Block` answers on the node, `Block` as meant does not answer so, and `BlockTransaction`
      has another transaction for the deploy "d1", or panics. */
  ghost predicate DisagreesOn(node: Node, r: Resolved, b: Block, panics: bool) {
    var tx := TransactionAt(node, Some(b.id), Some("d1"));
    && Resolve(node, None) == Ok(r) && IsConsistent(node, r) && IsAnswer(Shared, r, b) && !IsAnswer(Own, r, b)
    && if panics then tx.Panic? else tx.Ok? && !IsTheOne(tx.value, "d1", b)
  }

  /** They disagree on every first transfer that does not look like the last. */
  lemma TwoTransfersDisagree(first: Transfer) returns (r: Resolved, b: Block)
    requires first.deployHash == "d1" && !LooksLike(first, LAST)
    ensures DisagreesOn(TwoTransferNode(first), r, b, !('-' in first.source && '-' in first.target))
  {
    r := TwoTransfersResolved(first);
    b := TwoTransfersAnswer(first, r);
    TwoTransfersShow(first, r);
    SharingShows(TwoTransferNode(first), None, r, b, "d1");
  }

  /** Concretely: a first transfer of another amount is answered with the last one's, and one from a purse
      without separator is answered where `BlockTransaction` panics. */
  lemma SharedDiffers()
    ensures exists r, b :: DisagreesOn(TwoTransferNode(Transfer("d1", "a-", "b-", "1")), r, b, false)
    ensures exists r, b :: DisagreesOn(TwoTransferNode(Transfer("d1", "a", "b-", "1")), r, b, true)
  {
    var paid, bare := Transfer("d1", "a-", "b-", "1"), Transfer("d1", "a", "b-", "1");
    assert paid.source[1] == '-' && paid.target[1] == '-' && paid.amount[0] != LAST.amount[0];
    var r, b := TwoTransfersDisagree(paid);
    var r', b' := TwoTransfersDisagree(bare);
  }

  // ---------- links between blocks

  /** The heights up to `n` are there, and each header names its predecessor. */
  ghost predicate IsLinked(node: Node, n: uint64) {
    forall k: uint64 :: k <= n ==> HasLink(node, k)
  }

  ghost predicate HasLink(node: Node, k: uint64) {
    && node.blockByHeight(k).Some?
    && node.blockByHeight(k).value.height == k
    && (k > 0 ==> node.blockByHeight(k - 1).Some?
                  && node.blockByHeight(k).value.parentHash == node.blockByHeight(k - 1).value.hash)
  }

  function AtHeight(k: uint64): Option<PartialBlockIdentifier> {
    Some(PartialBlockIdentifier(None, Some(WrapInt64(k))))
  }

  /** Over all uint64 heights, the parent's index leads back to the height before. */
  lemma ParentIndex(b: BlockResponse)
    ensures WrapUint64(Identifier(b).index) == b.height
    ensures Identifier(b).index == b.height <==> b.height < TWO_63
    ensures Identifier(b).hash == b.hash
    ensures b.height > 0 ==> ParentIdentifier(b).hash == b.parentHash
    ensures b.height == 0 ==> ParentIdentifier(b) == Identifier(b)
    ensures b.height > 0 ==> ParentIdentifier(b).index == WrapInt64(b.height - 1)
    ensures b.height > 0 ==> WrapUint64(ParentIdentifier(b).index) == b.height - 1
  {
    Int64RoundTrip(b.height);
  }

  /** What the node holds at the heights up to `n`, and an answer for each. */
  ghost predicate AreAnswersAt(aliasing: Aliasing, node: Node, rs: seq<Resolved>, blocks: seq<Block>, n: uint64) {
    |rs| == |blocks| == n + 1 && forall k: uint64 :: k <= n ==> IsAnswerAt(aliasing, node, k, rs[k], blocks[k])
  }

  ghost predicate IsAnswerAt(aliasing: Aliasing, node: Node, k: uint64, r: Resolved, b: Block) {
    Resolve(node, AtHeight(k)) == Ok(r) && IsAnswer(aliasing, r, b)
  }

  lemma IdentifiersAt(aliasing: Aliasing, node: Node, k: uint64, r: Resolved, b: Block)
    requires HasLink(node, k) && IsAnswerAt(aliasing, node, k, r, b)
    ensures b.id == Identifier(node.blockByHeight(k).value)
    ensures b.parent == ParentIdentifier(node.blockByHeight(k).value)
  {
    Int64RoundTrip(k);
    AnswerIsInFull(aliasing, r, b);
  }

  ghost predicate AreIdentified(node: Node, n: uint64, blocks: seq<Block>)
    requires IsLinked(node, n) && |blocks| == n + 1
  {
    forall k: uint64 :: k <= n ==>
      && HasLink(node, k)
      && blocks[k].id == Identifier(node.blockByHeight(k).value)
      && blocks[k].parent == ParentIdentifier(node.blockByHeight(k).value)
  }

  /** On a linked chain, whatever the order of the walks: genesis is its own parent, and the parent of
      every other block is the identifier of the block before. */
  lemma ChainLinks(aliasing: Aliasing, node: Node, n: uint64, rs: seq<Resolved>, blocks: seq<Block>)
    requires IsLinked(node, n) && AreAnswersAt(aliasing, node, rs, blocks, n)
    ensures blocks[0].parent == blocks[0].id
    ensures forall k :: 0 < k <= n ==> blocks[k].parent == blocks[k - 1].id
    ensures forall k :: 0 <= k <= n ==> (blocks[k].id.index == k <==> k < TWO_63)
  {
    forall k: uint64 | k <= n
      ensures HasLink(node, k)
      ensures blocks[k].id == Identifier(node.blockByHeight(k).value)
      ensures blocks[k].parent == ParentIdentifier(node.blockByHeight(k).value)
    {
      assert IsAnswerAt(aliasing, node, k, rs[k], blocks[k]);
      IdentifiersAt(aliasing, node, k, rs[k], blocks[k]);
    }
    assert AreIdentified(node, n, blocks);
    IdentifiedLinks(node, n, blocks);
  }

  lemma IdentifiedLinks(node: Node, n: uint64, blocks: seq<Block>)
    requires IsLinked(node, n) && |blocks| == n + 1 && AreIdentified(node, n, blocks)
    ensures blocks[0].parent == blocks[0].id
    ensures forall k :: 0 < k <= n ==> blocks[k].parent == blocks[k - 1].id
    ensures forall k :: 0 <= k <= n ==> (blocks[k].id.index == k <==> k < TWO_63)
  {
    forall k: uint64 | k <= n
      ensures blocks[k].id.index == k <==> k < TWO_63
      ensures k == 0 ==> blocks[k].parent == blocks[k].id
      ensures k > 0 ==> blocks[k].parent == blocks[k - 1].id
    {
      assert HasLink(node, k);
      ParentIndex(node.blockByHeight(k).value);
      if k > 0 {
        assert HasLink(node, k - 1);
      }
    }
  }
}
