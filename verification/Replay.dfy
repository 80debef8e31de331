/** What the blocks of a run amount to: replaying their operations moves fees and transfers, and nothing else. */
module Replay {
  import opened GoRuntime
  import opened Decimals
  import opened Casper
  import opened Rosetta
  import opened Addressing
  import opened Transactions
  import opened Grouping
  import opened Sequences
  import opened Blocks
  import opened Agreement
  import opened Ledger

  // ---------- runs

  /** One answer of `Block` for each of the blocks looked up, each with its own order of the walk. Equal
      identifiers on one node are looked up alike, so a run over identifiers is a run over `rs`. */
  ghost predicate IsRun(aliasing: Aliasing, rs: seq<Resolved>, blocks: seq<Block>) {
    |rs| == |blocks| && forall i :: 0 <= i < |rs| ==> IsAnswer(aliasing, rs[i], blocks[i])
  }

  ghost predicate AreInFull(aliasing: Aliasing, rs: seq<Resolved>, blocks: seq<Block>) {
    |rs| == |blocks| && forall i :: 0 <= i < |rs| ==> IsInFull(aliasing, rs[i], blocks[i])
  }

  /** Some order of the deploys of each block. */
  ghost predicate AreOrders(rs: seq<Resolved>, orders: seq<seq<string>>) {
    |rs| == |orders| && forall i :: 0 <= i < |rs| ==> Enumerates(orders[i], Keys(rs[i]))
  }

  lemma RunIsInFull(aliasing: Aliasing, rs: seq<Resolved>, blocks: seq<Block>)
    requires IsRun(aliasing, rs, blocks)
    ensures AreInFull(aliasing, rs, blocks)
  {
    forall i | 0 <= i < |rs|
      ensures IsInFull(aliasing, rs[i], blocks[i])
    {
      AnswerIsInFull(aliasing, rs[i], blocks[i]);
    }
  }

  /** Two runs over the same blocks reach the same balance for every account, in either view. */
  lemma ReplayOrderIndependent(view: View, aliasing: Aliasing, rs: seq<Resolved>, blocks: seq<Block>,
                               blocks': seq<Block>, l: Balances, account: string)
    requires IsRun(aliasing, rs, blocks) && IsRun(aliasing, rs, blocks')
    ensures BalanceOf(Ledger.Replay(view, l, blocks), account) == BalanceOf(Ledger.Replay(view, l, blocks'), account)
    ensures forall i :: 0 <= i < |rs| ==> SameBlock(blocks[i], blocks'[i])
  {
    forall i | 0 <= i < |rs|
      ensures SameBlock(blocks[i], blocks'[i])
      ensures BlockNet(view, account)(blocks[i]) == BlockNet(view, account)(blocks'[i])
    {
      AnswersSame(aliasing, rs[i], blocks[i], blocks'[i]);
      SumPermutation(blocks[i].transactions, blocks'[i].transactions, TxNet(view, account));
    }
    SumCongruence(blocks, blocks', BlockNet(view, account));
    ReplayNet(view, l, blocks, account);
    ReplayNet(view, l, blocks', account);
  }

  // ---------- amounts are decimal

  /** The amounts of a block are unsigned decimal numbers. */
  ghost predicate HasDecimalAmounts(r: Resolved) {
    && (forall t :: t in r.transfers ==> IsDigits(t.amount))
    && (forall h :: h in Keys(r) && r.settle(h).Ok? ==> IsDigits(r.settle(h).value.fee))
  }

  ghost predicate HaveDecimalAmounts(rs: seq<Resolved>) {
    forall i :: 0 <= i < |rs| ==> HasDecimalAmounts(rs[i])
  }

  /** It is enough that the node's costs and payments are. */
  predicate IsDecimalDeploy(node: Node, d: DeployResponse) {
    && (node.paymentAmount(d.deploy).Some? ==> IsDigits(node.paymentAmount(d.deploy).value))
    && forall e :: e in d.executionResults ==>
                     && (e.failure.Some? ==> IsDigits(e.failure.value))
                     && (e.success.Some? ==> IsDigits(e.success.value))
  }

  lemma DecimalNode(node: Node, id: Option<PartialBlockIdentifier>, r: Resolved)
    requires Resolve(node, id) == Ok(r)
    requires forall t :: t in r.transfers ==> IsDigits(t.amount)
    requires forall h :: h in Keys(r) && node.deploy(h).Some? ==> IsDecimalDeploy(node, node.deploy(h).value)
    ensures HasDecimalAmounts(r)
  {
    forall h | h in Keys(r) && r.settle(h).Ok?
      ensures IsDigits(r.settle(h).value.fee)
    {
      assert r.settle(h) == Settle(node, h, r.block);
      var d := node.deploy(h).value;
      assert d.executionResults[0] in d.executionResults;
    }
  }

  // ---------- one transaction

  /** The transfers that one entry of `Block` posts. */
  function Posted(aliasing: Aliasing, r: Resolved, h: string): seq<Transfer> {
    if Succeeded(r, h) then Group(aliasing, r.transfers, h) else []
  }

  lemma GroupMembers(aliasing: Aliasing, r: Resolved, h: string)
    ensures forall t :: t in Group(aliasing, r.transfers, h) ==> t in r.transfers
  {
    FilterMembers(r.transfers, h);
  }

  lemma FeesCancel(ops: seq<Operation>, fee: string)
    requires |ops| >= 2 && IsDigits(fee) && ops[0].status == ops[1].status
    requires ops[0].amount == "-" + fee && ops[1].amount == fee
    ensures IsDoubleEntry(ops[0], ops[1])
  {
    MinusSign(fee);
  }

  lemma PairsCancel(ops: seq<Operation>, transfers: seq<Transfer>)
    requires AreTransferPairs(ops, transfers) && forall t :: t in transfers ==> IsDigits(t.amount)
    ensures IsBalanced(ops)
  {
    forall j | 0 <= j < |transfers|
      ensures IsDoubleEntry(ops[2 * j], ops[2 * j + 1])
    {
      assert IsTransferPair(ops[2 * j], ops[2 * j + 1], transfers[j]);
      MinusSign(transfers[j].amount);
    }
  }

  lemma PrependDoubleEntry(ops: seq<Operation>)
    requires |ops| >= 2 && IsDoubleEntry(ops[0], ops[1]) && IsBalanced(ops[2..])
    ensures IsBalanced(ops)
  {
    forall j | 0 <= j < |ops| / 2
      ensures IsDoubleEntry(ops[2 * j], ops[2 * j + 1])
    {
      if j > 0 {
        assert IsDoubleEntry(ops[2..][2 * (j - 1)], ops[2..][2 * (j - 1) + 1]);
      }
    }
  }

  /** Debits and credits of every transaction cancel pair by pair, in the code as written too. */
  lemma EntryIsBalanced(aliasing: Aliasing, r: Resolved, h: string)
    requires Entry(aliasing, r, h).Ok? && h in Keys(r) && HasDecimalAmounts(r)
    ensures IsBalanced(Entry(aliasing, r, h).value.operations)
  {
    GroupMembers(aliasing, r, h);
    AssembledIsBalanced(h, r.settle(h).value, Group(aliasing, r.transfers, h), r.proposerPurse);
  }

  lemma AssembledIsBalanced(h: string, s: Settlement, transfers: seq<Transfer>, purse: string)
    requires Assemble(h, s, transfers, purse).Ok? && IsDigits(s.fee)
    requires forall t :: t in transfers ==> IsDigits(t.amount)
    ensures IsBalanced(Assemble(h, s, transfers, purse).value.operations)
  {
    var ops := Assemble(h, s, transfers, purse).value.operations;
    TransactionShape(h, s, transfers, purse);
    FeesCancel(ops, s.fee);
    if !s.failed {
      PairsCancel(ops[2..], transfers);
    }
    PrependDoubleEntry(ops);
  }

  lemma BlockIsBalanced(aliasing: Aliasing, r: Resolved, b: Block)
    requires IsInFull(aliasing, r, b) && HasDecimalAmounts(r)
    ensures forall tx :: tx in b.transactions ==> IsBalanced(tx.operations)
  {
    forall tx | tx in b.transactions
      ensures IsBalanced(tx.operations)
    {
      EntryIsBalanced(aliasing, r, tx.hash);
    }
  }

  lemma {:induction false} InFullConserves(view: View, aliasing: Aliasing, rs: seq<Resolved>,
                                           blocks: seq<Block>, l: Balances)
    requires AreInFull(aliasing, rs, blocks) && HaveDecimalAmounts(rs)
    ensures Total(Ledger.Replay(view, l, blocks)) == Total(l)
  {
    if blocks != [] {
      var n := |blocks| - 1;
      InFullConserves(view, aliasing, rs[..n], blocks[..n], l);
      BlockIsBalanced(aliasing, rs[n], blocks[n]);
      BalancedTransactionsConserve(view, Ledger.Replay(view, l, blocks[..n]), blocks[n].transactions);
    }
  }

  /** Over any run, and in either view, replaying leaves the sum over all accounts as it was. */
  lemma ReplayConserves(view: View, aliasing: Aliasing, rs: seq<Resolved>, blocks: seq<Block>, l: Balances)
    requires IsRun(aliasing, rs, blocks) && HaveDecimalAmounts(rs)
    ensures Total(Ledger.Replay(view, l, blocks)) == Total(l)
  {
    RunIsInFull(aliasing, rs, blocks);
    InFullConserves(view, aliasing, rs, blocks, l);
  }

  // ---------- the simple ledger

  /** Which fees to move: all, those of successful deploys, those of failed ones. */
  datatype Fees = AllFees | FeesOfSuccess | FeesOfFailure

  predicate Picks(fees: Fees, failed: bool) {
    match fees
    case AllFees => true
    case FeesOfSuccess => !failed
    case FeesOfFailure => failed
  }

  function FeesOf(view: View): Fees {
    if view.Gross? then AllFees else FeesOfSuccess
  }

  /** The account of a purse; a purse without a separator, for which no block is answered, is its own. */
  function Account(purse: string): string {
    match PurseWithoutIndex(purse)
    case Ok(a) => a
    case _ => purse
  }

  /** The fee of one deploy, from the payer to the block's proposer. */
  function FeeMove(fees: Fees, r: Resolved, h: string): seq<Move> {
    match r.settle(h)
    case Ok(s) => if Picks(fees, s.failed) then [Move(Account(s.payer), Account(r.proposerPurse), Value(s.fee))] else []
    case _ => []
  }

  function FeeMover(fees: Fees, r: Resolved): string -> seq<Move> {
    h => FeeMove(fees, r, h)
  }

  /** The fees of the deploys, in the given order. */
  function FeeMoves(fees: Fees, r: Resolved, order: seq<string>): seq<Move> {
    FlatMap(order, FeeMover(fees, r))
  }

  function TransferMove(t: Transfer): Move {
    Move(Account(t.source), Account(t.target), Value(t.amount))
  }

  /** What is posted for a transfer of the block: itself, or as written the last one. */
  function ReadAs(aliasing: Aliasing, r: Resolved, t: Transfer): Transfer {
    if aliasing.Own? || r.transfers == [] then t else r.transfers[|r.transfers| - 1]
  }

  function TransferMover(aliasing: Aliasing, r: Resolved): Transfer -> seq<Move> {
    (t: Transfer) =>
      if Succeeded(r, t.deployHash) then [TransferMove(ReadAs(aliasing, r, t))] else []
  }

  /** One move for each transfer of a successful deploy, in the order the block lists them. */
  function TransferMoves(aliasing: Aliasing, r: Resolved): seq<Move> {
    FlatMap(r.transfers, TransferMover(aliasing, r))
  }

  function TransferNet(account: string): Transfer -> int {
    (t: Transfer) => MoveNet(account)(TransferMove(t))
  }

  lemma TransferNetIs(t: Transfer, account: string)
    ensures TransferNet(account)(t) == MoveNet(account)(TransferMove(t))
  {
  }

  lemma PairNet(view: View, debit: Operation, credit: Operation, t: Transfer, account: string)
    requires IsTransferPair(debit, credit, t) && IsDigits(t.amount)
    ensures Sum([debit, credit], OpNet(view, account)) == TransferNet(account)(t)
  {
    MinusSign(t.amount);
    SumSmall(debit, credit, OpNet(view, account));
    assert Account(t.source) == debit.address && Account(t.target) == credit.address;
    TransferNetIs(t, account);
  }

  lemma LastPair(ops: seq<Operation>, transfers: seq<Transfer>) returns (debit: Operation, credit: Operation)
    requires AreTransferPairs(ops, transfers) && transfers != []
    ensures ops == ops[..|ops| - 2] + [debit, credit]
    ensures IsTransferPair(debit, credit, transfers[|transfers| - 1])
    ensures AreTransferPairs(ops[..|ops| - 2], transfers[..|transfers| - 1])
  {
    var n := |transfers| - 1;
    debit, credit := ops[2 * n], ops[2 * n + 1];
    forall j | 0 <= j < n
      ensures IsTransferPair(ops[..2 * n][2 * j], ops[..2 * n][2 * j + 1], transfers[..n][j])
    {
      assert IsTransferPair(ops[2 * j], ops[2 * j + 1], transfers[j]);
    }
  }

  lemma {:induction false} PairsNet(view: View, ops: seq<Operation>, transfers: seq<Transfer>, account: string)
    requires AreTransferPairs(ops, transfers) && forall t :: t in transfers ==> IsDigits(t.amount)
    ensures Sum(ops, OpNet(view, account)) == Sum(transfers, TransferNet(account))
  {
    if transfers != [] {
      var n := |transfers| - 1;
      var debit, credit := LastPair(ops, transfers);
      PairsNet(view, ops[..2 * n], transfers[..n], account);
      assert transfers[n] in transfers;
      PairNet(view, debit, credit, transfers[n], account);
      SumConcat(ops[..2 * n], [debit, credit], OpNet(view, account));
    }
  }

  lemma FeePairNet(view: View, ops: seq<Operation>, s: Settlement, purse: string, account: string)
    requires |ops| == 2 && IsDigits(s.fee)
    requires forall k :: 0 <= k < 2 ==> ops[k].status == (if s.failed then FAILURE else SUCCESS)
    requires PurseWithoutIndex(s.payer) == Ok(ops[0].address) && ops[0].amount == "-" + s.fee
    requires PurseWithoutIndex(purse) == Ok(ops[1].address) && ops[1].amount == s.fee
    ensures Sum(ops, OpNet(view, account)) ==
            if Picks(FeesOf(view), s.failed)
            then MoveNet(account)(Move(Account(s.payer), Account(purse), Value(s.fee))) else 0
  {
    MinusSign(s.fee);
    SumSmall(ops[0], ops[1], OpNet(view, account));
    assert ops == [ops[0], ops[1]];
  }

  lemma AssembledNet(view: View, h: string, s: Settlement, transfers: seq<Transfer>, purse: string, account: string)
    requires Assemble(h, s, transfers, purse).Ok? && IsDigits(s.fee)
    requires forall t :: t in transfers ==> IsDigits(t.amount)
    ensures Sum(Assemble(h, s, transfers, purse).value.operations, OpNet(view, account)) ==
            (if Picks(FeesOf(view), s.failed)
             then MoveNet(account)(Move(Account(s.payer), Account(purse), Value(s.fee))) else 0) +
            (if s.failed then 0 else Sum(transfers, TransferNet(account)))
  {
    var ops := Assemble(h, s, transfers, purse).value.operations;
    TransactionShape(h, s, transfers, purse);
    FeePairNet(view, ops[..2], s, purse, account);
    assert ops == ops[..2] + ops[2..];
    SumConcat(ops[..2], ops[2..], OpNet(view, account));
    if !s.failed {
      PairsNet(view, ops[2..], transfers, account);
    }
  }

  /** A transaction nets to its fee and its posted transfers. */
  lemma EntryNet(view: View, aliasing: Aliasing, r: Resolved, h: string, account: string)
    requires Entry(aliasing, r, h).Ok? && h in Keys(r) && HasDecimalAmounts(r)
    ensures TxNet(view, account)(Entry(aliasing, r, h).value) ==
            Sum(FeeMove(FeesOf(view), r, h), MoveNet(account)) +
            Sum(Posted(aliasing, r, h), TransferNet(account))
  {
    GroupMembers(aliasing, r, h);
    AssembledNet(view, h, r.settle(h).value, Group(aliasing, r.transfers, h),
                 r.proposerPurse, account);
  }

  function PostedNet(aliasing: Aliasing, r: Resolved, account: string): string -> int {
    h => Sum(Posted(aliasing, r, h), TransferNet(account))
  }

  lemma EntriesNet(view: View, aliasing: Aliasing, r: Resolved, order: seq<string>,
                   txs: seq<Transaction>, account: string)
    requires |txs| == |order| && HasDecimalAmounts(r)
    requires forall i :: 0 <= i < |order| ==> order[i] in Keys(r) && Entry(aliasing, r, order[i]) == Ok(txs[i])
    ensures Sum(txs, TxNet(view, account)) ==
            Sum(FeeMoves(FeesOf(view), r, order), MoveNet(account)) +
            Sum(order, PostedNet(aliasing, r, account))
  {
    var fees := FeeMover(FeesOf(view), r);
    forall i | 0 <= i < |order|
      ensures TxNet(view, account)(txs[i]) ==
              SumOf(fees, MoveNet(account))(order[i]) + PostedNet(aliasing, r, account)(order[i])
    {
      EntryNet(view, aliasing, r, order[i], account);
    }
    SumAdd(txs, order, TxNet(view, account), SumOf(fees, MoveNet(account)), PostedNet(aliasing, r, account));
    FlatMapSum(order, fees, MoveNet(account));
  }

  /** A block nets to its fees and its posted transfers, taken in any order of the deploys. */
  lemma BlockNetIs(view: View, aliasing: Aliasing, r: Resolved, b: Block, order: seq<string>, account: string)
    requires IsInFull(aliasing, r, b) && Enumerates(order, Keys(r)) && HasDecimalAmounts(r)
    ensures BlockNet(view, account)(b) ==
            Sum(FeeMoves(FeesOf(view), r, order), MoveNet(account)) +
            Sum(order, PostedNet(aliasing, r, account))
  {
    var hashes := HashesInOrder(b.transactions);
    HashesCover(aliasing, r, b);
    assert forall i :: 0 <= i < |hashes| ==> Entries(aliasing, r)(hashes[i]) == Entry(aliasing, r, hashes[i]);
    assert forall i :: 0 <= i < |hashes| ==> hashes[i] in hashes;
    EntriesNet(view, aliasing, r, hashes, b.transactions, account);
    SameElements(hashes, order);
    SumPermutation(hashes, order, PostedNet(aliasing, r, account));
    FeesPermute(FeesOf(view), r, hashes, order, account);
  }

  lemma FeesPermute(fees: Fees, r: Resolved, order: seq<string>, order': seq<string>, account: string)
    requires multiset(order) == multiset(order')
    ensures Sum(FeeMoves(fees, r, order), MoveNet(account)) == Sum(FeeMoves(fees, r, order'), MoveNet(account))
  {
    FlatMapSum(order, FeeMover(fees, r), MoveNet(account));
    FlatMapSum(order', FeeMover(fees, r), MoveNet(account));
    SumPermutation(order, order', SumOf(FeeMover(fees, r), MoveNet(account)));
  }

  // ---------- groups and the block's own list

  /** The net effect of what is posted for a transfer, if its deploy succeeded. */
  function SettledNet(aliasing: Aliasing, r: Resolved, account: string): Transfer -> int {
    (t: Transfer) =>
      if Succeeded(r, t.deployHash) then TransferNet(account)(ReadAs(aliasing, r, t)) else 0
  }

  lemma GroupReads(aliasing: Aliasing, r: Resolved, h: string)
    ensures var own, group := Filter(r.transfers, h), Group(aliasing, r.transfers, h);
            |own| == |group|
            && forall i :: 0 <= i < |own| ==> own[i].deployHash == h && group[i] == ReadAs(aliasing, r, own[i])
  {
    FilterMembers(r.transfers, h);
    var own := Filter(r.transfers, h);
    assert forall i :: 0 <= i < |own| ==> own[i] in own;
  }

  lemma PostedIsSettled(aliasing: Aliasing, r: Resolved, h: string, account: string)
    ensures PostedNet(aliasing, r, account)(h) ==
            Sum(Filter(r.transfers, h), SettledNet(aliasing, r, account))
  {
    var own, group := Filter(r.transfers, h), Group(aliasing, r.transfers, h);
    GroupReads(aliasing, r, h);
    if Succeeded(r, h) {
      SumAdd(own, group, SettledNet(aliasing, r, account), TransferNet(account), (t: Transfer) => 0);
      SumZero(group, (t: Transfer) => 0);
    } else {
      SumZero(own, SettledNet(aliasing, r, account));
    }
  }

  lemma RegroupNet(aliasing: Aliasing, r: Resolved, order: seq<string>, account: string)
    ensures Sum(order, PostedNet(aliasing, r, account)) ==
            Sum(Regroup(r.transfers, order), SettledNet(aliasing, r, account))
  {
    var net := SettledNet(aliasing, r, account);
    forall h
      ensures PostedNet(aliasing, r, account)(h) == SumOf(Filterer(r.transfers), net)(h)
    {
      PostedIsSettled(aliasing, r, h, account);
    }
    SumPointwise(order, PostedNet(aliasing, r, account), SumOf(Filterer(r.transfers), net));
    FlatMapSum(order, Filterer(r.transfers), net);
  }

  lemma TransferMovesNet(aliasing: Aliasing, r: Resolved, account: string)
    ensures Sum(TransferMoves(aliasing, r), MoveNet(account)) ==
            Sum(r.transfers, SettledNet(aliasing, r, account))
  {
    var mover := TransferMover(aliasing, r);
    forall t
      ensures SumOf(mover, MoveNet(account))(t) == SettledNet(aliasing, r, account)(t)
    {
      var move := TransferMove(ReadAs(aliasing, r, t));
      SumSmall(move, move, MoveNet(account));
      TransferNetIs(ReadAs(aliasing, r, t), account);
    }
    FlatMapSum(r.transfers, mover, MoveNet(account));
    SumPointwise(r.transfers, SumOf(mover, MoveNet(account)), SettledNet(aliasing, r, account));
  }

  /** Posting the transfers deploy by deploy is moving them in the block's order. */
  lemma PostedIsMoved(aliasing: Aliasing, r: Resolved, order: seq<string>, account: string)
    requires Enumerates(order, Keys(r))
    ensures Sum(order, PostedNet(aliasing, r, account)) ==
            Sum(TransferMoves(aliasing, r), MoveNet(account))
  {
    RegroupNet(aliasing, r, order, account);
    GroupsPartition(r.transfers, order);
    SumPermutation(Regroup(r.transfers, order), r.transfers, SettledNet(aliasing, r, account));
    TransferMovesNet(aliasing, r, account);
  }

  // ---------- whole runs

  /** The simple ledger of a block: move every deploy's fee, then every transfer of a successful deploy
      in the order the block lists them; for the code as written, every such transfer moves what the
      last transfer of its block does. */
  function BlockMoves(fees: Fees, aliasing: Aliasing, r: Resolved, order: seq<string>): seq<Move> {
    FeeMoves(fees, r, order) + TransferMoves(aliasing, r)
  }

  /** The moves of block after block. */
  function ChainMoves(fees: Fees, aliasing: Aliasing, rs: seq<Resolved>, orders: seq<seq<string>>): seq<Move>
    requires |rs| == |orders|
  {
    if rs == [] then []
    else
      var n := |rs| - 1;
      ChainMoves(fees, aliasing, rs[..n], orders[..n]) + BlockMoves(fees, aliasing, rs[n], orders[n])
  }

  lemma BlockMovesNet(view: View, aliasing: Aliasing, r: Resolved, b: Block, order: seq<string>, account: string)
    requires IsInFull(aliasing, r, b) && Enumerates(order, Keys(r)) && HasDecimalAmounts(r)
    ensures BlockNet(view, account)(b) == Sum(BlockMoves(FeesOf(view), aliasing, r, order), MoveNet(account))
  {
    BlockNetIs(view, aliasing, r, b, order, account);
    PostedIsMoved(aliasing, r, order, account);
    SumConcat(FeeMoves(FeesOf(view), r, order), TransferMoves(aliasing, r), MoveNet(account));
  }

  lemma {:induction false} ChainNet(view: View, aliasing: Aliasing, rs: seq<Resolved>, blocks: seq<Block>,
                                    orders: seq<seq<string>>, account: string)
    requires AreInFull(aliasing, rs, blocks) && AreOrders(rs, orders) && HaveDecimalAmounts(rs)
    ensures Sum(blocks, BlockNet(view, account)) ==
            Sum(ChainMoves(FeesOf(view), aliasing, rs, orders), MoveNet(account))
  {
    if rs != [] {
      var n := |rs| - 1;
      ChainNet(view, aliasing, rs[..n], blocks[..n], orders[..n], account);
      BlockMovesNet(view, aliasing, rs[n], blocks[n], orders[n], account);
      SumConcat(ChainMoves(FeesOf(view), aliasing, rs[..n], orders[..n]),
                BlockMoves(FeesOf(view), aliasing, rs[n], orders[n]), MoveNet(account));
    }
  }

  /** Replaying the blocks is the simple ledger: with all fees in the gross view, with the fees of
      successful deploys in the effective one. */
  lemma ReplayRefinesMoves(view: View, aliasing: Aliasing, rs: seq<Resolved>, blocks: seq<Block>,
                           orders: seq<seq<string>>, l: Balances, account: string)
    requires IsRun(aliasing, rs, blocks) && AreOrders(rs, orders) && HaveDecimalAmounts(rs)
    ensures BalanceOf(Ledger.Replay(view, l, blocks), account) ==
            BalanceOf(ApplyAll(l, ChainMoves(FeesOf(view), aliasing, rs, orders)), account)
  {
    RunIsInFull(aliasing, rs, blocks);
    ReplayNet(view, l, blocks, account);
    ChainNet(view, aliasing, rs, blocks, orders, account);
    ApplyAllNet(l, ChainMoves(FeesOf(view), aliasing, rs, orders), account);
  }

  // ---------- gross against effective

  /** The fees of failed deploys, block after block. */
  function FailedFees(rs: seq<Resolved>, orders: seq<seq<string>>): seq<Move>
    requires |rs| == |orders|
  {
    if rs == [] then []
    else
      var n := |rs| - 1;
      FailedFees(rs[..n], orders[..n]) + FeeMoves(FeesOfFailure, rs[n], orders[n])
  }

  lemma FeesSplit(r: Resolved, order: seq<string>, account: string)
    ensures Sum(FeeMoves(AllFees, r, order), MoveNet(account)) ==
            Sum(FeeMoves(FeesOfSuccess, r, order), MoveNet(account)) +
            Sum(FeeMoves(FeesOfFailure, r, order), MoveNet(account))
  {
    var net := MoveNet(account);
    var all, success, failure := FeeMover(AllFees, r), FeeMover(FeesOfSuccess, r), FeeMover(FeesOfFailure, r);
    forall h
      ensures SumOf(all, net)(h) == SumOf(success, net)(h) + SumOf(failure, net)(h)
    {
      FeeSplit(r, h, account);
    }
    SumAdd(order, order, SumOf(all, net), SumOf(success, net), SumOf(failure, net));
    FlatMapSum(order, all, net);
    FlatMapSum(order, success, net);
    FlatMapSum(order, failure, net);
  }

  lemma FeeSplit(r: Resolved, h: string, account: string)
    ensures Sum(FeeMove(AllFees, r, h), MoveNet(account)) ==
            Sum(FeeMove(FeesOfSuccess, r, h), MoveNet(account)) +
            Sum(FeeMove(FeesOfFailure, r, h), MoveNet(account))
  {
  }

  lemma BlockViews(aliasing: Aliasing, r: Resolved, b: Block, order: seq<string>, account: string)
    requires IsInFull(aliasing, r, b) && Enumerates(order, Keys(r)) && HasDecimalAmounts(r)
    ensures BlockNet(Gross, account)(b) - BlockNet(Effective, account)(b) ==
            Sum(FeeMoves(FeesOfFailure, r, order), MoveNet(account))
  {
    BlockNetIs(Gross, aliasing, r, b, order, account);
    BlockNetIs(Effective, aliasing, r, b, order, account);
    FeesSplit(r, order, account);
  }

  lemma {:induction false} ViewsNet(aliasing: Aliasing, rs: seq<Resolved>, blocks: seq<Block>,
                                    orders: seq<seq<string>>, account: string)
    requires AreInFull(aliasing, rs, blocks) && AreOrders(rs, orders) && HaveDecimalAmounts(rs)
    ensures Sum(blocks, BlockNet(Gross, account)) - Sum(blocks, BlockNet(Effective, account)) ==
            Sum(FailedFees(rs, orders), MoveNet(account))
  {
    if rs != [] {
      var n := |rs| - 1;
      ViewsNet(aliasing, rs[..n], blocks[..n], orders[..n], account);
      BlockViews(aliasing, rs[n], blocks[n], orders[n], account);
      SumConcat(FailedFees(rs[..n], orders[..n]), FeeMoves(FeesOfFailure, rs[n], orders[n]), MoveNet(account));
    }
  }

  /** For every account the two views differ by its net fees from failed deploys, in the code as written too. */
  lemma GrossMinusEffective(aliasing: Aliasing, rs: seq<Resolved>, blocks: seq<Block>, orders: seq<seq<string>>,
                            l: Balances, account: string)
    requires IsRun(aliasing, rs, blocks) && AreOrders(rs, orders) && HaveDecimalAmounts(rs)
    ensures BalanceOf(Ledger.Replay(Gross, l, blocks), account)
            - BalanceOf(Ledger.Replay(Effective, l, blocks), account) == Sum(FailedFees(rs, orders), MoveNet(account))
  {
    RunIsInFull(aliasing, rs, blocks);
    ReplayNet(Gross, l, blocks, account);
    ReplayNet(Effective, l, blocks, account);
    ViewsNet(aliasing, rs, blocks, orders, account);
  }

  // ---------- the addresses posted to

  /** The purses a block mentions are urefs. */
  ghost predicate HasUrefPurses(r: Resolved) {
    && (forall t :: t in r.transfers ==> IsUref(t.source) && IsUref(t.target))
    && IsUref(r.proposerPurse)
    && (forall h :: h in Keys(r) && r.settle(h).Ok? ==> IsUref(r.settle(h).value.payer))
  }

  /** Every address posted to by a block is one that `Balance` reads back as itself, on any node. */
  lemma PostedAddressesReadBack(aliasing: Aliasing, r: Resolved, b: Block, node: Node, root: string)
    requires IsAnswer(aliasing, r, b) && HasUrefPurses(r)
    ensures forall tx, op :: tx in b.transactions && op in tx.operations ==> ReadsBack(node, op.address, root)
  {
    AnswerIsInFull(aliasing, r, b);
    forall tx, op | tx in b.transactions && op in tx.operations
      ensures ReadsBack(node, op.address, root)
    {
      GroupMembers(aliasing, r, tx.hash);
      var purse := PostedPurse(tx.hash, r.settle(tx.hash).value, Group(aliasing, r.transfers, tx.hash),
                               r.proposerPurse, op);
      LedgerAddressRoundTrip(node, purse, root);
    }
  }

  /** The address takes the uref branch, and the purse asked for is one of that address. */
  predicate ReadsBack(node: Node, address: string, root: string) {
    && TakesUrefBranch(address)
    && BalancePurse(node, address, root).Ok?
    && PurseWithoutIndex(BalancePurse(node, address, root).value) == Ok(address)
  }

  /** The purse an operation's address was cut from. */
  lemma PostedPurse(h: string, s: Settlement, transfers: seq<Transfer>, proposerPurse: string, op: Operation)
    returns (purse: string)
    requires Assemble(h, s, transfers, proposerPurse).Ok?
    requires op in Assemble(h, s, transfers, proposerPurse).value.operations
    ensures PurseWithoutIndex(purse) == Ok(op.address)
    ensures || purse == s.payer || purse == proposerPurse
            || exists t :: t in transfers && (purse == t.source || purse == t.target)
  {
    var ops := Assemble(h, s, transfers, proposerPurse).value.operations;
    TransactionShape(h, s, transfers, proposerPurse);
    var k :| 0 <= k < |ops| && ops[k] == op;
    if k == 0 {
      purse := s.payer;
    } else if k == 1 {
      purse := proposerPurse;
    } else {
      purse := TransferPurse(ops[2..], transfers, k - 2);
    }
  }

  lemma TransferPurse(ops: seq<Operation>, transfers: seq<Transfer>, k: nat) returns (purse: string)
    requires AreTransferPairs(ops, transfers) && k < |ops|
    ensures PurseWithoutIndex(purse) == Ok(ops[k].address)
    ensures exists t :: t in transfers && (purse == t.source || purse == t.target)
  {
    var j := k / 2;
    assert IsTransferPair(ops[2 * j], ops[2 * j + 1], transfers[j]);
    assert transfers[j] in transfers;
    purse := if k % 2 == 0 then transfers[j].source else transfers[j].target;
  }
}
