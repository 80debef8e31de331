/** Replaying Rosetta operations on account balances. */
module Ledger {
  import opened Decimals
  import opened Rosetta
  import opened Sequences

  type Balances = map<string, int>

  /** Gross: every operation moves its amount. Effective: only those whose status is successful. */
  datatype View = Gross | Effective

  predicate Counts(view: View, status: OperationStatus) {
    view.Gross? || Successful(status)
  }

  function BalanceOf(l: Balances, account: string): int {
    if account in l then l[account] else 0
  }

  function Add(l: Balances, account: string, amount: int): Balances {
    l[account := BalanceOf(l, account) + amount]
  }

  function Post(view: View, l: Balances, op: Operation): Balances {
    if Counts(view, op.status) then Add(l, op.address, Value(op.amount)) else l
  }

  function PostAll(view: View, l: Balances, ops: seq<Operation>): Balances {
    if ops == [] then l else Post(view, PostAll(view, l, ops[..|ops| - 1]), ops[|ops| - 1])
  }

  function PostTransactions(view: View, l: Balances, txs: seq<Transaction>): Balances {
    if txs == [] then l
    else PostAll(view, PostTransactions(view, l, txs[..|txs| - 1]), txs[|txs| - 1].operations)
  }

  /** The balances after the blocks, one after the other. */
  function Replay(view: View, l: Balances, blocks: seq<Block>): Balances {
    if blocks == [] then l
    else PostTransactions(view, Replay(view, l, blocks[..|blocks| - 1]), blocks[|blocks| - 1].transactions)
  }

  // ---------- net effects

  function OpNet(view: View, account: string): Operation -> int {
    (op: Operation) => if Counts(view, op.status) && op.address == account then Value(op.amount) else 0
  }

  function TxNet(view: View, account: string): Transaction -> int {
    (tx: Transaction) => Sum(tx.operations, OpNet(view, account))
  }

  function BlockNet(view: View, account: string): Block -> int {
    (b: Block) => Sum(b.transactions, TxNet(view, account))
  }

  lemma {:induction false} PostAllNet(view: View, l: Balances, ops: seq<Operation>, account: string)
    ensures BalanceOf(PostAll(view, l, ops), account) == BalanceOf(l, account) + Sum(ops, OpNet(view, account))
  {
    if ops != [] {
      PostAllNet(view, l, ops[..|ops| - 1], account);
    }
  }

  lemma {:induction false} PostTransactionsNet(view: View, l: Balances, txs: seq<Transaction>, account: string)
    ensures BalanceOf(PostTransactions(view, l, txs), account) ==
            BalanceOf(l, account) + Sum(txs, TxNet(view, account))
  {
    if txs != [] {
      var n := |txs| - 1;
      PostTransactionsNet(view, l, txs[..n], account);
      PostAllNet(view, PostTransactions(view, l, txs[..n]), txs[n].operations, account);
    }
  }

  lemma {:induction false} ReplayNet(view: View, l: Balances, blocks: seq<Block>, account: string)
    ensures BalanceOf(Replay(view, l, blocks), account) == BalanceOf(l, account) + Sum(blocks, BlockNet(view, account))
  {
    if blocks != [] {
      var n := |blocks| - 1;
      ReplayNet(view, l, blocks[..n], account);
      PostTransactionsNet(view, Replay(view, l, blocks[..n]), blocks[n].transactions, account);
    }
  }

  // ---------- totals

  /** The sum over all accounts. */
  ghost function Total(l: Balances): int {
    if l == map[] then 0
    else
      var account :| account in l;
      l[account] + Total(l - {account})
  }

  lemma {:induction false} TotalWithout(l: Balances, account: string)
    requires account in l
    ensures Total(l) == l[account] + Total(l - {account})
  {
    var picked :| picked in l && Total(l) == l[picked] + Total(l - {picked});
    if picked != account {
      TotalWithout(l - {picked}, account);
      TotalWithout(l - {account}, picked);
      assert l - {picked} - {account} == l - {account} - {picked};
    }
  }

  lemma TotalAdd(l: Balances, account: string, amount: int)
    ensures Total(Add(l, account, amount)) == Total(l) + amount
  {
    var l' := Add(l, account, amount);
    TotalWithout(l', account);
    if account in l {
      TotalWithout(l, account);
      assert l' - {account} == l - {account};
    } else {
      assert l' - {account} == l;
    }
  }

  /** Two operations that count together and cancel. */
  predicate IsDoubleEntry(debit: Operation, credit: Operation) {
    debit.status == credit.status && Value(debit.amount) + Value(credit.amount) == 0
  }

  ghost predicate IsBalanced(ops: seq<Operation>) {
    |ops| % 2 == 0 && forall j :: 0 <= j < |ops| / 2 ==> IsDoubleEntry(ops[2 * j], ops[2 * j + 1])
  }

  lemma {:induction false} BalancedConserves(view: View, l: Balances, ops: seq<Operation>)
    requires IsBalanced(ops)
    ensures Total(PostAll(view, l, ops)) == Total(l)
  {
    if ops != [] {
      var n := |ops| - 2;
      BalancedPrefix(ops);
      BalancedConserves(view, l, ops[..n]);
      assert ops[..n + 1][..n] == ops[..n];
      DoubleEntryConserves(view, PostAll(view, l, ops[..n]), ops[n], ops[n + 1]);
    }
  }

  lemma BalancedPrefix(ops: seq<Operation>)
    requires IsBalanced(ops) && ops != []
    ensures |ops| >= 2 && IsBalanced(ops[..|ops| - 2]) && IsDoubleEntry(ops[|ops| - 2], ops[|ops| - 1])
  {
    var m := |ops| / 2 - 1;
    assert IsDoubleEntry(ops[2 * m], ops[2 * m + 1]);
    forall j | 0 <= j < m
      ensures IsDoubleEntry(ops[..2 * m][2 * j], ops[..2 * m][2 * j + 1])
    {
      assert IsDoubleEntry(ops[2 * j], ops[2 * j + 1]);
    }
  }

  lemma DoubleEntryConserves(view: View, l: Balances, debit: Operation, credit: Operation)
    requires IsDoubleEntry(debit, credit)
    ensures Total(Post(view, Post(view, l, debit), credit)) == Total(l)
  {
    if Counts(view, debit.status) {
      TotalAdd(l, debit.address, Value(debit.amount));
      TotalAdd(Post(view, l, debit), credit.address, Value(credit.amount));
    }
  }

  lemma {:induction false} BalancedTransactionsConserve(view: View, l: Balances, txs: seq<Transaction>)
    requires forall tx :: tx in txs ==> IsBalanced(tx.operations)
    ensures Total(PostTransactions(view, l, txs)) == Total(l)
  {
    if txs != [] {
      var n := |txs| - 1;
      BalancedTransactionsConserve(view, l, txs[..n]);
      BalancedConserves(view, PostTransactions(view, l, txs[..n]), txs[n].operations);
    }
  }

  // ---------- a ledger of plain moves

  datatype Move = Move(from: string, to: string, amount: int)

  function ApplyAll(l: Balances, moves: seq<Move>): Balances {
    if moves == [] then l
    else
      var m := moves[|moves| - 1];
      Add(Add(ApplyAll(l, moves[..|moves| - 1]), m.from, -m.amount), m.to, m.amount)
  }

  function MoveNet(account: string): Move -> int {
    (m: Move) => (if m.to == account then m.amount else 0) - (if m.from == account then m.amount else 0)
  }

  lemma {:induction false} ApplyAllNet(l: Balances, moves: seq<Move>, account: string)
    ensures BalanceOf(ApplyAll(l, moves), account) == BalanceOf(l, account) + Sum(moves, MoveNet(account))
  {
    if moves != [] {
      ApplyAllNet(l, moves[..|moves| - 1], account);
    }
  }

  lemma {:induction false} MovesConserve(l: Balances, moves: seq<Move>)
    ensures Total(ApplyAll(l, moves)) == Total(l)
  {
    if moves != [] {
      var m := moves[|moves| - 1];
      var before := ApplyAll(l, moves[..|moves| - 1]);
      MovesConserve(l, moves[..|moves| - 1]);
      TotalAdd(before, m.from, -m.amount);
      TotalAdd(Add(before, m.from, -m.amount), m.to, m.amount);
    }
  }
}
