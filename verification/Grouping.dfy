/** The index from deploy hash to transfers that `Block` builds. */
module Grouping {
  import opened Casper
  import opened Transactions
  import opened Sequences

  // ---------- the specification

  /** The transfers of one deploy, in the block's order. */
  function Filter(transfers: seq<Transfer>, deployHash: string): (r: seq<Transfer>)
  {
    if transfers == [] then []
    else
      var n := |transfers| - 1;
      var before := Filter(transfers[..n], deployHash);
      if transfers[n].deployHash == deployHash then before + [transfers[n]] else before
  }

  lemma {:induction false} FilterMembers(transfers: seq<Transfer>, deployHash: string)
    ensures forall t :: t in Filter(transfers, deployHash) <==> t in transfers && t.deployHash == deployHash
  {
    if transfers != [] {
      var n := |transfers| - 1;
      FilterMembers(transfers[..n], deployHash);
      assert transfers == transfers[..n] + [transfers[n]];
    }
  }

  lemma {:induction false} FilterNone(transfers: seq<Transfer>, deployHash: string)
    ensures Filter(transfers, deployHash) == [] <==> forall t :: t in transfers ==> t.deployHash != deployHash
  {
    if transfers != [] {
      var n := |transfers| - 1;
      FilterNone(transfers[..n], deployHash);
      assert transfers == transfers[..n] + [transfers[n]];
    }
  }

  /** Where the transfers of a deploy stand in the block. */
  function Positions(transfers: seq<Transfer>, deployHash: string): seq<nat> {
    if transfers == [] then []
    else
      var n := |transfers| - 1;
      var before := Positions(transfers[..n], deployHash);
      if transfers[n].deployHash == deployHash then before + [n] else before
  }

  lemma {:induction false} PositionsIncrease(transfers: seq<Transfer>, deployHash: string)
    ensures forall i :: 0 <= i < |Positions(transfers, deployHash)| ==>
              Positions(transfers, deployHash)[i] < |transfers|
    ensures forall i, j :: 0 <= i < j < |Positions(transfers, deployHash)| ==>
              Positions(transfers, deployHash)[i] < Positions(transfers, deployHash)[j]
  {
    if transfers != [] {
      PositionsIncrease(transfers[..|transfers| - 1], deployHash);
    }
  }

  /** The filter misses nothing and adds nothing. */
  lemma {:induction false} PositionsExact(transfers: seq<Transfer>, deployHash: string, k: nat)
    requires k < |transfers|
    ensures k in Positions(transfers, deployHash) <==> transfers[k].deployHash == deployHash
  {
    var n := |transfers| - 1;
    if k < n {
      PositionsExact(transfers[..n], deployHash, k);
    } else {
      PositionsIncrease(transfers[..n], deployHash);
    }
  }

  /** The filter keeps the block's order: its elements are those at the increasing positions. */
  lemma {:induction false} FilterInOrder(transfers: seq<Transfer>, deployHash: string)
    ensures var positions, own := Positions(transfers, deployHash), Filter(transfers, deployHash);
            |own| == |positions| && forall i :: 0 <= i < |own| ==>
              positions[i] < |transfers| && own[i] == transfers[positions[i]]
  {
    if transfers != [] {
      FilterInOrder(transfers[..|transfers| - 1], deployHash);
    }
  }

  lemma FilterStep(ts: seq<Transfer>, i: nat, h: string)
    requires i < |ts|
    ensures Filter(ts[..i + 1], h) ==
            if ts[i].deployHash == h then Filter(ts[..i], h) + [ts[i]] else Filter(ts[..i], h)
  {
    assert ts[..i + 1][..i] == ts[..i];
  }

  /** Which cell a pointer stored in the index refers to: the loop variable that all iterations share
      (what the code does), or the transfer's own element (what is meant). */
  datatype Aliasing = Shared | Own

  function Group(aliasing: Aliasing, transfers: seq<Transfer>, deployHash: string): (r: seq<Transfer>)
    ensures aliasing.Own? ==> r == Filter(transfers, deployHash)
    ensures aliasing.Shared? && transfers != [] ==>
              && |r| == |Filter(transfers, deployHash)|
              && forall k :: 0 <= k < |r| ==> r[k] == transfers[|transfers| - 1]
  {
    var own := Filter(transfers, deployHash);
    match aliasing
    case Own => own
    case Shared => if transfers == [] then [] else seq(|own|, _ => transfers[|transfers| - 1])
  }

  function HashesOf(transfers: seq<Transfer>): set<string> {
    set t | t in transfers :: t.deployHash
  }

  lemma HashesStep(ts: seq<Transfer>, i: nat)
    requires i < |ts|
    ensures HashesOf(ts[..i + 1]) == HashesOf(ts[..i]) + {ts[i].deployHash}
  {
    assert ts[..i + 1] == ts[..i] + [ts[i]];
  }

  /** The deploys of a block: those with transfers and those of the block body. */
  function DeployKeys(transfers: seq<Transfer>, deployHashes: seq<string>): set<string> {
    HashesOf(transfers) + (set h | h in deployHashes)
  }

  /** A deploy is one of them exactly when the body names it or a transfer belongs to it. */
  lemma DeployKeysExact(transfers: seq<Transfer>, deployHashes: seq<string>)
    ensures forall h :: h in DeployKeys(transfers, deployHashes) <==>
              h in deployHashes || exists t :: t in transfers && t.deployHash == h
  {
  }

  // ---------- the loops

  /** The memory of a decoded transfer list: one cell for each element. */
  method NewTransferSlice(transfers: seq<Transfer>) returns (cells: seq<TransferCell>)
    ensures |cells| == |transfers| && Values(cells) == transfers
    ensures fresh(cells)
    ensures Distinct(cells)
  {
    cells := [];
    for i := 0 to |transfers|
      invariant |cells| == i && fresh(cells) && Distinct(cells)
      invariant forall k :: 0 <= k < i ==> cells[k].value == transfers[k]
    {
      var cell := new TransferCell(transfers[i]);
      cells := cells + [cell];
    }
  }

  method AddDeploysWithoutTransfers(groups: map<string, seq<TransferCell>>, deployHashes: seq<string>)
    returns (index: map<string, seq<TransferCell>>)
    ensures index.Keys == groups.Keys + set h | h in deployHashes
    ensures forall h :: h in index ==> index[h] == if h in groups then groups[h] else []
  {
    index := groups;
    for i := 0 to |deployHashes|
      invariant index.Keys == groups.Keys + set h | h in deployHashes[..i]
      invariant forall h :: h in index ==> index[h] == if h in groups then groups[h] else []
    {
      var deployHash := deployHashes[i];
      if deployHash !in index {
        index := index[deployHash := []];
      }
      assert deployHashes[..i + 1] == deployHashes[..i] + [deployHash];
    }
    assert deployHashes[..|deployHashes|] == deployHashes;
  }

  /** Appending to the list of one deploy, which is created when it is missing. */
  function Append(index: map<string, seq<TransferCell>>, deployHash: string, cell: TransferCell)
    : map<string, seq<TransferCell>>
  {
    index[deployHash := (if deployHash in index then index[deployHash] else []) + [cell]]
  }

  method AppendToDeploy(groups: map<string, seq<TransferCell>>, deployHash: string, cell: TransferCell)
    returns (index: map<string, seq<TransferCell>>)
    ensures index == Append(groups, deployHash, cell)
  {
    index := groups;
    if deployHash !in index {
      index := index[deployHash := []];
    }
    index := index[deployHash := index[deployHash] + [cell]];
  }

  // as written

  /** Every pointer of the index is `cell`, and each deploy has as many as it has transfers. */
  ghost predicate IsSharedIndex(index: map<string, seq<TransferCell>>, ts: seq<Transfer>, cell: TransferCell) {
    && (forall h :: h !in index ==> Filter(ts, h) == [])
    && (forall h :: h in index ==> |index[h]| == |Filter(ts, h)|)
    && AllPointTo(index, cell)
  }

  ghost predicate AllPointTo(index: map<string, seq<TransferCell>>, cell: TransferCell) {
    forall h, k :: h in index && 0 <= k < |index[h]| ==> index[h][k] == cell
  }

  lemma SharedStep(index: map<string, seq<TransferCell>>, ts: seq<Transfer>, i: nat, cell: TransferCell)
    requires i < |ts| && IsSharedIndex(index, ts[..i], cell)
    ensures IsSharedIndex(Append(index, ts[i].deployHash, cell), ts[..i + 1], cell)
  {
    var index' := Append(index, ts[i].deployHash, cell);
    forall h
      ensures if h in index' then |index'[h]| == |Filter(ts[..i + 1], h)| else Filter(ts[..i + 1], h) == []
    {
      FilterStep(ts, i, h);
    }
  }

  lemma SharedContents(index: map<string, seq<TransferCell>>, ts: seq<Transfer>, cell: TransferCell)
    requires IsSharedIndex(index, ts, cell)
    requires ts != [] ==> cell.value == ts[|ts| - 1]
    ensures forall h :: h in index ==> Values(index[h]) == Group(Shared, ts, h)
  {
    forall h | h in index
      ensures Values(index[h]) == Group(Shared, ts, h)
    {
      assert |index[h]| == |Filter(ts, h)|;
    }
  }

  /** The range loop as the code has it: `&trs` is the address of the loop's one variable. */
  method RangeAsWritten(blockTransfers: seq<TransferCell>)
    returns (index: map<string, seq<TransferCell>>, trs: TransferCell)
    ensures index.Keys == HashesOf(Values(blockTransfers))
    ensures IsSharedIndex(index, Values(blockTransfers), trs)
    ensures blockTransfers != [] ==> trs.value == blockTransfers[|blockTransfers| - 1].value
  {
    ghost var ts := Values(blockTransfers);
    index := map[];
    trs := new TransferCell(Transfer("", "", "", ""));
    for i := 0 to |blockTransfers|
      invariant index.Keys == HashesOf(ts[..i])
      invariant IsSharedIndex(index, ts[..i], trs)
      invariant i > 0 ==> trs.value == ts[i - 1]
      invariant trs !in blockTransfers && Values(blockTransfers) == ts
    {
      trs.value := blockTransfers[i].value;
      assert trs.value == ts[i];
      var deployHash := trs.value.deployHash;
      SharedStep(index, ts, i, trs);
      HashesStep(ts, i);
      index := AppendToDeploy(index, deployHash, trs);
    }
    assert ts[..|ts|] == ts;
  }

  method GroupByDeployAsWritten(blockTransfers: seq<TransferCell>, deployHashes: seq<string>)
    returns (index: map<string, seq<TransferCell>>)
    ensures index.Keys == DeployKeys(Values(blockTransfers), deployHashes)
    ensures forall h :: h in index <==>
              h in deployHashes || exists t :: t in Values(blockTransfers) && t.deployHash == h
    ensures forall h :: h in index ==> Values(index[h]) == Group(Shared, Values(blockTransfers), h)
    ensures exists trs :: AllPointTo(index, trs)
  {
    var trs;
    index, trs := RangeAsWritten(blockTransfers);
    index := AddDeploysWithoutTransfers(index, deployHashes);
    SharedContents(index, Values(blockTransfers), trs);
    DeployKeysExact(Values(blockTransfers), deployHashes);
  }

  // as intended

  /** Each deploy's pointers are those of its own transfers' cells, in order. */
  function FilterCells(cells: seq<TransferCell>, deployHash: string): (r: seq<TransferCell>)
    reads cells
  {
    if cells == [] then []
    else
      var n := |cells| - 1;
      var before := FilterCells(cells[..n], deployHash);
      if cells[n].value.deployHash == deployHash then before + [cells[n]] else before
  }

  lemma {:induction false} FilterCellsValues(cells: seq<TransferCell>, deployHash: string)
    ensures Values(FilterCells(cells, deployHash)) == Filter(Values(cells), deployHash)
  {
    if cells != [] {
      var n := |cells| - 1;
      assert Values(cells)[..n] == Values(cells[..n]);
      FilterCellsValues(cells[..n], deployHash);
    }
  }

  /** The range loop as meant: the address of the transfer's own element, as in `BlockTransaction`. */
  method RangeAsMeant(blockTransfers: seq<TransferCell>) returns (index: map<string, seq<TransferCell>>)
    ensures index.Keys == HashesOf(Values(blockTransfers))
    ensures IsOwnIndex(index, blockTransfers)
  {
    ghost var ts := Values(blockTransfers);
    index := map[];
    for i := 0 to |blockTransfers|
      invariant index.Keys == HashesOf(ts[..i])
      invariant IsOwnIndex(index, blockTransfers[..i])
    {
      var deployHash := blockTransfers[i].value.deployHash;
      OwnStep(index, blockTransfers, i);
      HashesStep(ts, i);
      index := AppendToDeploy(index, deployHash, blockTransfers[i]);
    }
    assert ts[..|ts|] == ts && blockTransfers[..|ts|] == blockTransfers;
  }

  method GroupByDeployAsMeant(blockTransfers: seq<TransferCell>, deployHashes: seq<string>)
    returns (index: map<string, seq<TransferCell>>)
    ensures index.Keys == DeployKeys(Values(blockTransfers), deployHashes)
    ensures forall h :: h in index <==>
              h in deployHashes || exists t :: t in Values(blockTransfers) && t.deployHash == h
    ensures forall h :: h in index ==> Values(index[h]) == Group(Own, Values(blockTransfers), h)
    ensures forall h :: h in index ==> index[h] == FilterCells(blockTransfers, h)
  {
    index := RangeAsMeant(blockTransfers);
    index := AddDeploysWithoutTransfers(index, deployHashes);
    OwnContents(index, blockTransfers);
    DeployKeysExact(Values(blockTransfers), deployHashes);
  }

  ghost predicate IsOwnIndex(index: map<string, seq<TransferCell>>, cells: seq<TransferCell>)
    reads cells
  {
    && (forall h :: h !in index ==> FilterCells(cells, h) == [])
    && (forall h :: h in index ==> index[h] == FilterCells(cells, h))
  }

  lemma OwnStep(index: map<string, seq<TransferCell>>, cells: seq<TransferCell>, i: nat)
    requires i < |cells| && IsOwnIndex(index, cells[..i])
    ensures IsOwnIndex(Append(index, cells[i].value.deployHash, cells[i]), cells[..i + 1])
  {
    assert cells[..i + 1][..i] == cells[..i];
  }

  lemma OwnContents(index: map<string, seq<TransferCell>>, cells: seq<TransferCell>)
    requires IsOwnIndex(index, cells)
    ensures forall h :: h in index ==> Values(index[h]) == Group(Own, Values(cells), h)
  {
    forall h | h in index
      ensures Values(index[h]) == Group(Own, Values(cells), h)
    {
      FilterCellsValues(cells, h);
    }
  }

  // ---------- the groups partition the transfers

  function Filterer(transfers: seq<Transfer>): string -> seq<Transfer> {
    h => Filter(transfers, h)
  }

  /** All groups one after the other, in some order of the deploys. */
  function Regroup(transfers: seq<Transfer>, order: seq<string>): seq<Transfer> {
    FlatMap(order, Filterer(transfers))
  }

  lemma {:induction false} RegroupNothing(order: seq<string>)
    ensures Regroup([], order) == []
  {
    if order != [] {
      RegroupNothing(order[..|order| - 1]);
    }
  }

  lemma {:induction false} RegroupStep(transfers: seq<Transfer>, t: Transfer, order: seq<string>)
    requires Distinct(order)
    ensures multiset(Regroup(transfers + [t], order)) ==
            multiset(Regroup(transfers, order)) + (if t.deployHash in order then multiset{t} else multiset{})
  {
    if order != [] {
      var n := |order| - 1;
      RegroupStep(transfers, t, order[..n]);
      assert (transfers + [t])[..|transfers|] == transfers;
      assert order == order[..n] + [order[n]];
    }
  }

  /** Over any enumeration of the keys, the groups hold every transfer of the block exactly once. */
  lemma {:induction false} GroupsPartition(transfers: seq<Transfer>, order: seq<string>)
    requires Distinct(order) && forall t :: t in transfers ==> t.deployHash in order
    ensures multiset(Regroup(transfers, order)) == multiset(transfers)
  {
    if transfers == [] {
      RegroupNothing(order);
    } else {
      var n := |transfers| - 1;
      assert transfers == transfers[..n] + [transfers[n]];
      GroupsPartition(transfers[..n], order);
      RegroupStep(transfers[..n], transfers[n], order);
    }
  }
}
