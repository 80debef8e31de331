/** From one deploy and its transfers to a Rosetta transaction. */
module Transactions {
  import opened GoRuntime
  import opened Decimals
  import opened Casper
  import opened Rosetta
  import opened Addressing

  /** What a transfer pointer points to. */
  class TransferCell {
    var value: Transfer

    constructor (value: Transfer)
      ensures this.value == value
    {
      this.value := value;
    }
  }

  function Values(cells: seq<TransferCell>): (ts: seq<Transfer>)
    reads cells
    ensures |ts| == |cells|
    ensures forall i :: 0 <= i < |cells| ==> ts[i] == cells[i].value
  {
    seq(|cells|, i requires 0 <= i < |cells| reads cells => cells[i].value)
  }

  // ---------- the specification

  /** What a deploy's execution settles: did it fail, whose purse pays, and how much. */
  datatype Settlement = Settlement(failed: bool, payer: string, fee: string)

  function Settle(node: Node, deployHash: string, block: BlockResponse): (r: Outcome<Settlement>)
  {
    var answer :- Require(node.deploy(deployHash), CouldNotGetDeploy);
    if answer.executionResults == [] then Err(InvalidDeploy) else
    var payer :- MainPurse(node, answer.deploy.account, block.stateRootHash).WithError(NoSignerPurse);
    var payment :- if answer.deploy.paymentArgs == [] then Ok("0")
                   else Require(node.paymentAmount(answer.deploy), NoPaymentAmount);
    var result := answer.executionResults[0];
    if result.failure.Some? then Ok(Settlement(true, payer, result.failure.value))
    else if result.success.None? then Panic
    else Ok(Settlement(false, payer, if payment == "0" then result.success.value else payment))
  }

  /** The two operations of a fee, from `payer` to `proposer`. */
  function FeeOps(status: OperationStatus, payer: string, proposer: string, fee: string): seq<Operation> {
    [Operation(0, [], FeeOp, status, payer, "-" + fee),
     Operation(1, [0], FeeOp, status, proposer, fee)]
  }

  /** The two operations of transfer number `n`. */
  function TransferPair(t: Transfer, n: nat): (r: Outcome<seq<Operation>>)
    ensures !r.Err?
  {
    var source :- PurseWithoutIndex(t.source);
    var target :- PurseWithoutIndex(t.target);
    Ok([Operation(WrapInt64(2 * n + 2), [], TransferOp, SUCCESS, source, "-" + t.amount),
        Operation(WrapInt64(2 * n + 1 + 2), [], TransferOp, SUCCESS, target, t.amount)])
  }

  /** The operations of the transfers, two for each, numbered from 2 on. */
  function TransferOps(transfers: seq<Transfer>): (r: Outcome<seq<Operation>>)
    ensures !r.Err?
  {
    if transfers == [] then Ok([])
    else
      var n := |transfers| - 1;
      var ops :- TransferOps(transfers[..n]);
      var pair :- TransferPair(transfers[n], n);
      Ok(ops + pair)
  }

  function Assemble(deployHash: string, settlement: Settlement, transfers: seq<Transfer>, proposerPurse: string)
    : (r: Outcome<Transaction>)
  {
    var payer :- PurseWithoutIndex(settlement.payer);
    var proposer :- PurseWithoutIndex(proposerPurse);
    if settlement.failed then
      Ok(Transaction(deployHash, FeeOps(FAILURE, payer, proposer, settlement.fee)))
    else
      var ops :- TransferOps(transfers);
      Ok(Transaction(deployHash, FeeOps(SUCCESS, payer, proposer, settlement.fee) + ops))
  }

  /** The transaction of a deploy, given the transfers the caller found for it. */
  function CreateTransaction(node: Node, deployHash: string, transfers: seq<Transfer>, block: BlockResponse,
                             proposerPurse: string): (r: Outcome<Transaction>)
  {
    var settlement :- Settle(node, deployHash, block);
    Assemble(deployHash, settlement, transfers, proposerPurse)
  }

  // ---------- the client's method

  /** The loop over the transfers of a successful deploy. */
  method AppendTransfers(fees: seq<Operation>, transfers: seq<TransferCell>) returns (r: Outcome<seq<Operation>>)
    ensures match TransferOps(Values(transfers))
            case Ok(ops) => r == Ok(fees + ops)
            case Panic => r == Panic
            case Err(_) => false
  {
    var rosOperations := fees;
    ghost var ts := Values(transfers);
    ghost var ops: seq<Operation> := [];
    for i := 0 to |transfers|
      invariant rosOperations == fees + ops
      invariant TransferOps(ts[..i]) == Ok(ops)
    {
      var tx := transfers[i].value;
      ghost var pair := TransferPair(tx, i);
      TransferOpsStep(ts, i);
      var source := PurseWithoutIndex(tx.source);
      if source.Panic? {
        return Panic;
      }
      var debit := Operation(WrapInt64(2 * i + 2), [], TransferOp, SUCCESS, source.value, "-" + tx.amount);
      rosOperations := rosOperations + [debit];
      var target := PurseWithoutIndex(tx.target);
      if target.Panic? {
        return Panic;
      }
      var credit := Operation(WrapInt64(2 * i + 1 + 2), [], TransferOp, SUCCESS, target.value, tx.amount);
      rosOperations := rosOperations + [credit];
      assert pair == Ok([debit, credit]);
      ops := ops + pair.value;
    }
    assert ts[..|transfers|] == ts;
    return Ok(rosOperations);
  }

  /** One more transfer, and a panic at any transfer is the whole loop's. */
  lemma TransferOpsStep(ts: seq<Transfer>, i: nat)
    requires i < |ts| && TransferOps(ts[..i]).Ok?
    ensures match TransferPair(ts[i], i)
            case Ok(pair) => TransferOps(ts[..i + 1]) == Ok(TransferOps(ts[..i]).value + pair)
            case Panic => TransferOps(ts) == Panic
            case Err(_) => false
  {
    assert ts[..i + 1][..i] == ts[..i] && ts[..i + 1][i] == ts[i];
    if TransferPair(ts[i], i).Panic? {
      TransferOpsPanics(ts, i + 1);
    }
  }

  lemma {:induction false} TransferOpsPanics(ts: seq<Transfer>, i: nat)
    requires i <= |ts| && TransferOps(ts[..i]).Panic?
    ensures TransferOps(ts).Panic?
    decreases |ts| - i
  {
    if i < |ts| {
      assert ts[..i + 1][..i] == ts[..i];
      TransferOpsPanics(ts, i + 1);
    } else {
      assert ts[..i] == ts;
    }
  }

  /** The operations of some transfers panic exactly when a purse among them has no separator. */
  lemma {:induction false} TransferOpsOutcome(transfers: seq<Transfer>)
    ensures TransferOps(transfers).Panic? <==>
            exists t :: t in transfers && ('-' !in t.source || '-' !in t.target)
  {
    if transfers != [] {
      var n := |transfers| - 1;
      TransferOpsOutcome(transfers[..n]);
      assert transfers == transfers[..n] + [transfers[n]];
      PurseCharacterised(transfers[n].source, "");
      PurseCharacterised(transfers[n].target, "");
    }
  }

  method CreateRosTransaction(node: Node, deployHash: string, transfers: seq<TransferCell>, block: BlockResponse,
                              validatorMainPurse: string) returns (r: Outcome<Transaction>)
    ensures r == CreateTransaction(node, deployHash, Values(transfers), block, validatorMainPurse)
  {
    var answer := node.deploy(deployHash);
    if answer.None? {
      return Err(CouldNotGetDeploy);
    }
    var deploy := answer.value;
    if |deploy.executionResults| == 0 {
      return Err(InvalidDeploy);
    }
    var rosOperations: seq<Operation> := [];
    var signerPurse := GetMainPurseFromPublicKey(node, deploy.deploy.account, block.stateRootHash);
    if signerPurse.Panic? {
      return Panic;
    }
    if signerPurse.Err? {
      return Err(NoSignerPurse);
    }
    var signerMainPurse := signerPurse.value;
    var paymentAmount := "0";
    if |deploy.deploy.paymentArgs| != 0 {
      var payment := node.paymentAmount(deploy.deploy);
      if payment.None? {
        return Err(NoPaymentAmount);
      }
      paymentAmount := payment.value;
    }
    var result := deploy.executionResults[0];
    if result.failure.Some? {
      var txCost := result.failure.value;
      var signer := PurseWithoutIndex(signerMainPurse);
      var validator := PurseWithoutIndex(validatorMainPurse);
      if signer.Panic? || validator.Panic? {
        return Panic;
      }
      rosOperations := [
        Operation(0, [], FeeOp, FAILURE, signer.value, "-" + txCost),
        Operation(1, [0], FeeOp, FAILURE, validator.value, txCost)];
    } else {
      if result.success.None? {
        return Panic;
      }
      var txCost := result.success.value;
      if paymentAmount == "0" {
        paymentAmount := txCost;
      }
      var signer := PurseWithoutIndex(signerMainPurse);
      var validator := PurseWithoutIndex(validatorMainPurse);
      if signer.Panic? || validator.Panic? {
        return Panic;
      }
      rosOperations := [
        Operation(0, [], FeeOp, SUCCESS, signer.value, "-" + paymentAmount),
        Operation(1, [0], FeeOp, SUCCESS, validator.value, paymentAmount)];
      var appended := AppendTransfers(rosOperations, transfers);
      if appended.Panic? {
        return Panic;
      }
      rosOperations := appended.value;
    }
    return Ok(Transaction(deployHash, rosOperations));
  }

  // ---------- the shape of the operations

  /** The pair of operations for transfer `j`, read off the transfer itself. */
  predicate IsTransferPair(debit: Operation, credit: Operation, t: Transfer) {
    && debit.kind == credit.kind == TransferOp
    && debit.status == credit.status == SUCCESS
    && debit.related == credit.related == []
    && PurseWithoutIndex(t.source) == Ok(debit.address)
    && PurseWithoutIndex(t.target) == Ok(credit.address)
    && debit.amount == "-" + t.amount
    && credit.amount == t.amount
  }

  predicate AreTransferPairs(ops: seq<Operation>, transfers: seq<Transfer>) {
    && |ops| == 2 * |transfers|
    && forall j :: 0 <= j < |transfers| ==> IsTransferPair(ops[2 * j], ops[2 * j + 1], transfers[j])
  }

  /** Numbered from 2 on and unrelated to one another. */
  predicate AreNumbered(ops: seq<Operation>) {
    forall k :: 0 <= k < |ops| ==> ops[k].index == WrapInt64(k + 2) && ops[k].related == []
  }

  lemma {:induction false} TransferOpsLength(transfers: seq<Transfer>)
    requires TransferOps(transfers).Ok?
    ensures |TransferOps(transfers).value| == 2 * |transfers|
  {
    if transfers != [] {
      TransferOpsLength(transfers[..|transfers| - 1]);
    }
  }

  lemma {:induction false} TransferOpsAt(transfers: seq<Transfer>, j: nat)
    requires TransferOps(transfers).Ok? && j < |transfers|
    ensures var ops := TransferOps(transfers).value;
            && |ops| == 2 * |transfers|
            && TransferPair(transfers[j], j) == Ok([ops[2 * j], ops[2 * j + 1]])
  {
    var n := |transfers| - 1;
    TransferOpsLength(transfers[..n]);
    if j < n {
      TransferOpsAt(transfers[..n], j);
    }
  }

  lemma TransferOpsShape(transfers: seq<Transfer>)
    requires TransferOps(transfers).Ok?
    ensures AreTransferPairs(TransferOps(transfers).value, transfers)
    ensures AreNumbered(TransferOps(transfers).value)
  {
    var ops := TransferOps(transfers).value;
    TransferOpsLength(transfers);
    forall j | 0 <= j < |transfers|
      ensures IsTransferPair(ops[2 * j], ops[2 * j + 1], transfers[j])
    {
      TransferOpsAt(transfers, j);
    }
    forall k | 0 <= k < |ops|
      ensures ops[k].index == WrapInt64(k + 2) && ops[k].related == []
    {
      TransferOpsAt(transfers, k / 2);
    }
  }

  /** The two fee operations come first; a failed deploy has nothing else, a successful one goes on with
      a pair for each transfer, in the transfers' order. */
  lemma TransactionShape(deployHash: string, s: Settlement, transfers: seq<Transfer>, proposerPurse: string)
    requires Assemble(deployHash, s, transfers, proposerPurse).Ok?
    ensures var tx := Assemble(deployHash, s, transfers, proposerPurse).value;
            var ops := tx.operations;
            && tx.hash == deployHash
            && |ops| == (if s.failed then 2 else 2 + 2 * |transfers|)
            && (forall k :: 0 <= k < 2 ==>
                  ops[k].kind == FeeOp && ops[k].status == (if s.failed then FAILURE else SUCCESS))
            && PurseWithoutIndex(s.payer) == Ok(ops[0].address) && ops[0].amount == "-" + s.fee
            && PurseWithoutIndex(proposerPurse) == Ok(ops[1].address) && ops[1].amount == s.fee
            && (!s.failed ==> AreTransferPairs(ops[2..], transfers))
  {
    if !s.failed {
      var ops := Assemble(deployHash, s, transfers, proposerPurse).value.operations;
      TransferOpsShape(transfers);
      assert ops[2..] == TransferOps(transfers).value;
    }
  }

  lemma IndicesWrap(deployHash: string, s: Settlement, transfers: seq<Transfer>, proposerPurse: string)
    requires Assemble(deployHash, s, transfers, proposerPurse).Ok?
    ensures var ops := Assemble(deployHash, s, transfers, proposerPurse).value.operations;
            && |ops| >= 2 && ops[1].related == [0]
            && (forall k :: 0 <= k < |ops| ==> ops[k].index == WrapInt64(k) && (k != 1 ==> ops[k].related == []))
  {
    if !s.failed {
      var ops := Assemble(deployHash, s, transfers, proposerPurse).value.operations;
      TransferOpsShape(transfers);
      assert forall k :: 2 <= k < |ops| ==> ops[k] == TransferOps(transfers).value[k - 2];
    }
  }

  /** Positions are indices exactly as long as they fit an int64, so below 2^62 - 1 transfers always; and
      what an operation is related to comes before it. */
  lemma OperationIndices(deployHash: string, s: Settlement, transfers: seq<Transfer>, proposerPurse: string)
    requires Assemble(deployHash, s, transfers, proposerPurse).Ok?
    ensures var ops := Assemble(deployHash, s, transfers, proposerPurse).value.operations;
            && ((forall k :: 0 <= k < |ops| ==> ops[k].index == k) <==> |ops| <= TWO_63)
            && (|transfers| < 0x4000_0000_0000_0000 - 1 ==> forall k :: 0 <= k < |ops| ==> ops[k].index == k)
            && (forall k, m :: 0 <= k < |ops| && m in ops[k].related ==> 0 <= m < k)
  {
    IndicesWrap(deployHash, s, transfers, proposerPurse);
    TransactionShape(deployHash, s, transfers, proposerPurse);
    var ops := Assemble(deployHash, s, transfers, proposerPurse).value.operations;
    if |ops| > TWO_63 {
      assert ops[TWO_63].index == WrapInt64(TWO_63);
    }
  }

  /** The payment text of a deploy: "0" when it has no payment argument. */
  function PaymentText(node: Node, d: Deploy): Option<string> {
    if d.paymentArgs == [] then Some("0") else node.paymentAmount(d)
  }

  predicate IsExecuted(node: Node, deployHash: string) {
    node.deploy(deployHash).Some? && node.deploy(deployHash).value.executionResults != []
  }

  /** A deploy settles, failed or not, exactly when it was executed, its signer's purse and its payment
      can be read, and its first execution has a result; each part that is missing has its own error. */
  lemma SettlesExactly(node: Node, deployHash: string, block: BlockResponse)
    ensures var s := Settle(node, deployHash, block);
            && (s == Err(CouldNotGetDeploy) <==> node.deploy(deployHash).None?)
            && (s == Err(InvalidDeploy) <==> node.deploy(deployHash).Some? && !IsExecuted(node, deployHash))
            && (IsExecuted(node, deployHash) ==>
                  var d := node.deploy(deployHash).value;
                  var purse := MainPurse(node, d.deploy.account, block.stateRootHash);
                  var payment := PaymentText(node, d.deploy);
                  var result := d.executionResults[0];
                  var hasResult := result.failure.Some? || result.success.Some?;
                  && (s.Ok? <==> purse.Ok? && payment.Some? && hasResult)
                  && (s == Err(NoSignerPurse) <==> purse.Err?)
                  && (s == Err(NoPaymentAmount) <==> purse.Ok? && payment.None?)
                  && (s.Panic? <==> |d.deploy.account| < 2 || (purse.Ok? && payment.Some? && !hasResult))
                  && (s.Ok? && result.failure.Some? ==>
                        s.value == Settlement(true, purse.value, result.failure.value))
                  && (s.Ok? && result.failure.None? ==>
                        && !s.value.failed && s.value.payer == purse.value
                        && s.value.fee == if payment.value == "0" then result.success.value else payment.value))
  {
    if IsExecuted(node, deployHash) {
      MainPurseExact(node, node.deploy(deployHash).value.deploy.account, block.stateRootHash);
    }
  }

  /** In numbers, the fee of a failed deploy is its cost. That of a successful one is the payment, or the
      cost when the payment is worth nothing, exactly if a payment worth nothing is written "0" or the
      cost is worth nothing too: so for every canonical payment. The signer's main purse pays. */
  lemma FeeIsPaymentOrCost(node: Node, deployHash: string, block: BlockResponse)
    requires Settle(node, deployHash, block).Ok?
    ensures var d := node.deploy(deployHash).value;
            var s := Settle(node, deployHash, block).value;
            && s.failed == d.executionResults[0].failure.Some?
            && MainPurse(node, d.deploy.account, block.stateRootHash) == Ok(s.payer)
            && PaymentText(node, d.deploy).Some?
            && var payment := PaymentText(node, d.deploy).value;
               match d.executionResults[0].failure
               case Some(cost) => Value(s.fee) == Value(cost)
               case None =>
                 var cost := d.executionResults[0].success.value;
                 var isRight := Value(s.fee) == if Value(payment) == 0 then Value(cost) else Value(payment);
                 && (isRight <==> (Value(payment) == 0 ==> payment == "0" || Value(cost) == 0))
                 && (IsCanonical(payment) ==> isRight)
  {
    var payment := PaymentText(node, node.deploy(deployHash).value.deploy).value;
    if IsDigits(payment) {
      ZeroTest(payment);
    }
  }
}
