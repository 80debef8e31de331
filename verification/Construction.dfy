/** The construction pipeline: from intent operations through options and metadata to deploy parameters. */
module Construction {
  import opened GoRuntime
  import opened Decimals
  import opened Sequences

  /** The keys of options and metadata: the six distinct strings the service names, and any other. */
  datatype Key =
    | CHAIN_NAME
    | TRANSFER_AMOUNT
    | TARGET_ADDR
    | SRC_ADDR
    | GAS_PRICE
    | TRANSFER_ID
    | OtherKey(name: string)

  /** A Go `interface{}`: a string, nil, or a value of another type. */
  datatype Any = Str(text: string) | Nil | OtherType

  const NAMED_KEYS: set<Key> := {CHAIN_NAME, TRANSFER_AMOUNT, TARGET_ADDR, SRC_ADDR, GAS_PRICE, TRANSFER_ID}

  type Entries = map<Key, Any>

  /** Reading a Go map: a missing key reads as nil. */
  function Lookup(entries: Entries, key: Key): Any {
    if key in entries then entries[key] else Nil
  }

  /** The type assertion `.(string)`. */
  function AssertString(v: Any): (r: Outcome<string>)
    ensures !r.Err?
  {
    if v.Str? then Ok(v.text) else Panic
  }

  /** An operation of the intent. Identifier, account and amount are pointers; `index` is None when the
      operation or its identifier is nil. */
  datatype IntentOperation = IntentOperation(
    index: Option<int64>, account: Option<string>, amount: Option<string>, metadata: Entries)

  datatype Preprocessed = Preprocessed(options: Entries, requiredPublicKeys: seq<string>)

  datatype DeployParams = DeployParams(
    chainName: string, transferAmount: string, paymentAmount: string, targetAccount: string, srcAccount: string,
    gasPrice: string, transferId: int64)

  datatype Payloads = Payloads(params: DeployParams, signers: seq<string>)

  // ---------- the specification

  /** What the loop does with one operation. */
  function Absorb(p: Preprocessed, op: IntentOperation): (r: Outcome<Preprocessed>)
    ensures !r.Err?
  {
    if op.index.None? then Panic
    else if op.index.value == 0 then
      if op.account.None? then Panic
      else Ok(Preprocessed(p.options[SRC_ADDR := Str(op.account.value)], p.requiredPublicKeys + [op.account.value]))
    else if op.index.value == 1 then
      if op.amount.None? || op.account.None? then Panic
      else Ok(p.(options := p.options[TRANSFER_AMOUNT := Str(op.amount.value)]
                                     [TARGET_ADDR := Str(op.account.value)]
                                     [TRANSFER_ID := Lookup(op.metadata, TRANSFER_ID)]))
    else Ok(p)
  }

  function AbsorbAll(network: string, ops: seq<IntentOperation>): (r: Outcome<Preprocessed>)
    ensures !r.Err?
  {
    if ops == [] then Ok(Preprocessed(map[CHAIN_NAME := Str(network)], []))
    else
      var p :- AbsorbAll(network, ops[..|ops| - 1]);
      Absorb(p, ops[|ops| - 1])
  }

  /** `network` is the network of the request, or None when the request has a nil network identifier. */
  function Preprocess(network: Option<string>, ops: seq<IntentOperation>): (r: Outcome<Preprocessed>)
    ensures !r.Err?
  {
    if network.None? then Panic else
    var p :- AbsorbAll(network.value, ops);
    Ok(p.(options := p.options[GAS_PRICE := Str("1")]))
  }

  /** The named entries alone, a missing one as nil. */
  function Metadata(online: bool, options: Entries): Outcome<Entries> {
    if !online then Err(UnavailableOffline)
    else Ok(map k | k in NAMED_KEYS :: Lookup(options, k))
  }

  /** Each named entry is a string, and the transfer id is an int64. */
  predicate IsReadable(metadata: Entries) {
    && (forall k :: k in NAMED_KEYS ==> Lookup(metadata, k).Str?)
    && ParseInt64(Lookup(metadata, TRANSFER_ID).text).Some?
  }

  /** A transfer id that is a string and no int64. */
  predicate HasBadTransferId(metadata: Entries) {
    Lookup(metadata, TRANSFER_ID).Str? && ParseInt64(Lookup(metadata, TRANSFER_ID).text).None?
  }

  function PayloadsOf(metadata: Entries): Outcome<Payloads> {
    if IsReadable(metadata) then
      var params := DeployParams(
        Lookup(metadata, CHAIN_NAME).text, Lookup(metadata, TRANSFER_AMOUNT).text, "",
        Lookup(metadata, TARGET_ADDR).text, Lookup(metadata, SRC_ADDR).text, Lookup(metadata, GAS_PRICE).text,
        ParseInt64(Lookup(metadata, TRANSFER_ID).text).value);
      Ok(Payloads(params, [params.targetAccount]))
    else if HasBadTransferId(metadata) then Err(UnableToParse)
    else Panic
  }

  /** The three calls in a row, options and metadata passed on unchanged. */
  function Pipeline(network: Option<string>, online: bool, ops: seq<IntentOperation>): Outcome<Payloads> {
    var p :- Preprocess(network, ops);
    var metadata :- Metadata(online, p.options);
    PayloadsOf(metadata)
  }

  // ---------- the service's methods

  method ConstructionPreprocess(networkIdentifier: Option<string>, operations: seq<IntentOperation>)
    returns (r: Outcome<Preprocessed>)
    ensures r == Preprocess(networkIdentifier, operations)
  {
    if networkIdentifier.None? {
      return Panic;
    }
    var network := networkIdentifier.value;
    var options: Entries := map[];
    var requiredPublicKeys: seq<string> := [];
    options := options[CHAIN_NAME := Str(network)];
    for i := 0 to |operations|
      invariant AbsorbAll(network, operations[..i]) == Ok(Preprocessed(options, requiredPublicKeys))
    {
      var operation := operations[i];
      AbsorbStep(network, operations, i);
      if operation.index.None? {
        return Panic;
      }
      if operation.index.value == 0 {
        if operation.account.None? {
          return Panic;
        }
        options := options[SRC_ADDR := Str(operation.account.value)];
        var sender := operation.account.value;
        requiredPublicKeys := requiredPublicKeys + [sender];
      }
      if operation.index.value == 1 {
        if operation.amount.None? {
          return Panic;
        }
        options := options[TRANSFER_AMOUNT := Str(operation.amount.value)];
        if operation.account.None? {
          return Panic;
        }
        options := options[TARGET_ADDR := Str(operation.account.value)];
        options := options[TRANSFER_ID := Lookup(operation.metadata, TRANSFER_ID)];
      }
    }
    assert operations[..|operations|] == operations;
    options := options[GAS_PRICE := Str("1")];
    return Ok(Preprocessed(options, requiredPublicKeys));
  }

  lemma AbsorbStep(network: string, ops: seq<IntentOperation>, i: nat)
    requires i < |ops| && AbsorbAll(network, ops[..i]).Ok?
    ensures AbsorbAll(network, ops[..i + 1]) == Absorb(AbsorbAll(network, ops[..i]).value, ops[i])
    ensures AbsorbAll(network, ops[..i + 1]).Panic? ==> AbsorbAll(network, ops).Panic?
  {
    assert ops[..i + 1][..i] == ops[..i];
    if AbsorbAll(network, ops[..i + 1]).Panic? {
      AbsorbPanics(network, ops, i + 1);
    }
  }

  lemma {:induction false} AbsorbPanics(network: string, ops: seq<IntentOperation>, i: nat)
    requires i <= |ops| && AbsorbAll(network, ops[..i]).Panic?
    ensures AbsorbAll(network, ops).Panic?
    decreases |ops| - i
  {
    if i < |ops| {
      assert ops[..i + 1][..i] == ops[..i];
      AbsorbPanics(network, ops, i + 1);
    } else {
      assert ops[..i] == ops;
    }
  }

  method ConstructionMetadata(online: bool, options: Entries) returns (r: Outcome<Entries>)
    ensures r == Metadata(online, options)
    ensures r.Ok? <==> online
    ensures !r.Ok? ==> r == Err(UnavailableOffline)
    ensures r.Ok? ==> r.value.Keys == NAMED_KEYS && forall k :: k in NAMED_KEYS ==> r.value[k] == Lookup(options, k)
    ensures r.Ok? ==> PayloadsOf(r.value) == PayloadsOf(options)
  {
    if !online {
      return Err(UnavailableOffline);
    }
    var metadata: Entries := map[];
    metadata := metadata[CHAIN_NAME := Lookup(options, CHAIN_NAME)];
    metadata := metadata[TRANSFER_AMOUNT := Lookup(options, TRANSFER_AMOUNT)];
    metadata := metadata[TARGET_ADDR := Lookup(options, TARGET_ADDR)];
    metadata := metadata[SRC_ADDR := Lookup(options, SRC_ADDR)];
    metadata := metadata[GAS_PRICE := Lookup(options, GAS_PRICE)];
    metadata := metadata[TRANSFER_ID := Lookup(options, TRANSFER_ID)];
    MetadataIs(options, metadata);
    return Ok(metadata);
  }

  lemma MetadataIs(options: Entries, metadata: Entries)
    requires metadata.Keys == NAMED_KEYS && forall k :: k in NAMED_KEYS ==> metadata[k] == Lookup(options, k)
    ensures Metadata(true, options) == Ok(metadata)
    ensures PayloadsOf(metadata) == PayloadsOf(options)
  {
    assert metadata == Metadata(true, options).value;
    MetadataTransparent(options, metadata);
  }

  /** Entries that read alike at the named keys give the same payloads. */
  lemma MetadataTransparent(options: Entries, metadata: Entries)
    requires forall k :: k in NAMED_KEYS ==> Lookup(metadata, k) == Lookup(options, k)
    ensures PayloadsOf(metadata) == PayloadsOf(options)
  {
    assert TRANSFER_ID in NAMED_KEYS && CHAIN_NAME in NAMED_KEYS && TRANSFER_AMOUNT in NAMED_KEYS;
    assert TARGET_ADDR in NAMED_KEYS && SRC_ADDR in NAMED_KEYS && GAS_PRICE in NAMED_KEYS;
  }

  /** The entries are asserted to be strings one by one, the transfer id first: a bad id is an error
      whatever the other entries are, and any entry that is no string is a panic otherwise. */
  method ConstructionPayloads(metadata: Entries) returns (r: Outcome<Payloads>)
    ensures r == PayloadsOf(metadata)
    ensures r.Ok? <==> IsReadable(metadata)
    ensures r.Err? <==> HasBadTransferId(metadata)
    ensures r.Ok? ==>
              && var p := r.value.params;
                 && Lookup(metadata, CHAIN_NAME) == Str(p.chainName)
                 && Lookup(metadata, TRANSFER_AMOUNT) == Str(p.transferAmount)
                 && Lookup(metadata, TARGET_ADDR) == Str(p.targetAccount)
                 && Lookup(metadata, SRC_ADDR) == Str(p.srcAccount)
                 && Lookup(metadata, GAS_PRICE) == Str(p.gasPrice)
                 && ParseInt64(Lookup(metadata, TRANSFER_ID).text) == Some(p.transferId)
                 && p.paymentAmount == ""
                 && r.value.signers == [p.targetAccount]
    ensures r.Err? ==> r == Err(UnableToParse)
  {
    var id :- AssertString(Lookup(metadata, TRANSFER_ID));
    var transferId := ParseInt64(id);
    if transferId.None? {
      return Err(UnableToParse);
    }
    var chainName :- AssertString(Lookup(metadata, CHAIN_NAME));
    var transferAmount :- AssertString(Lookup(metadata, TRANSFER_AMOUNT));
    var targetAccount :- AssertString(Lookup(metadata, TARGET_ADDR));
    var srcAccount :- AssertString(Lookup(metadata, SRC_ADDR));
    var gasPrice :- AssertString(Lookup(metadata, GAS_PRICE));
    var params := DeployParams(chainName, transferAmount, "", targetAccount, srcAccount, gasPrice, transferId.value);
    var payloads: seq<string> := [];
    payloads := payloads + [targetAccount];
    assert payloads == [targetAccount];
    return Ok(Payloads(params, payloads));
  }

  // ---------- what an intent means

  /** The last operation with the given index. */
  function LastAt(ops: seq<IntentOperation>, index: int64): (r: Option<IntentOperation>)
    ensures r.Some? ==> r.value in ops && r.value.index == Some(index)
    ensures r.None? ==> forall op :: op in ops ==> op.index != Some(index)
  {
    if ops == [] then None
    else
      var last := ops[|ops| - 1];
      assert ops == ops[..|ops| - 1] + [last];
      if last.index == Some(index) then Some(last) else LastAt(ops[..|ops| - 1], index)
  }

  /** Operation `k` has the index, and none after it has. */
  ghost predicate IsLastAt(ops: seq<IntentOperation>, index: int64, k: int) {
    0 <= k < |ops| && ops[k].index == Some(index) && forall j :: k < j < |ops| ==> ops[j].index != Some(index)
  }

  lemma {:induction false} LastIsLast(ops: seq<IntentOperation>, index: int64)
    ensures forall k :: IsLastAt(ops, index, k) ==> LastAt(ops, index) == Some(ops[k])
    ensures LastAt(ops, index).Some? ==> exists k :: IsLastAt(ops, index, k)
  {
    if ops != [] {
      var n := |ops| - 1;
      LastIsLast(ops[..n], index);
      if ops[n].index == Some(index) {
        assert IsLastAt(ops, index, n);
      } else {
        forall k
          ensures IsLastAt(ops, index, k) <==> IsLastAt(ops[..n], index, k)
        {
          LastStep(ops, index, k);
        }
      }
    }
  }

  lemma LastStep(ops: seq<IntentOperation>, index: int64, k: int)
    requires ops != [] && ops[|ops| - 1].index != Some(index)
    ensures IsLastAt(ops, index, k) <==> IsLastAt(ops[..|ops| - 1], index, k)
  {
    var n := |ops| - 1;
    assert forall j :: 0 <= j < n ==> ops[..n][j] == ops[j];
  }

  /** The accounts of the operations with index 0, in order. */
  function Senders(ops: seq<IntentOperation>): seq<string> {
    if ops == [] then []
    else
      var last := ops[|ops| - 1];
      Senders(ops[..|ops| - 1]) + if last.index == Some(0) && last.account.Some? then [last.account.value] else []
  }

  lemma {:induction false} SendersConcat(before: seq<IntentOperation>, after: seq<IntentOperation>)
    ensures Senders(before + after) == Senders(before) + Senders(after)
  {
    if after == [] {
      assert before + after == before;
    } else {
      var n, s := |after| - 1, before + after;
      SendersConcat(before, after[..n]);
      assert s[..|s| - 1] == before + after[..n] && s[|s| - 1] == after[n];
    }
  }

  /** One account for each operation with index 0, where it stands, and nothing for any other. */
  lemma SendersInOrder(before: seq<IntentOperation>, op: IntentOperation, after: seq<IntentOperation>)
    ensures op.index == Some(0) && op.account.Some? ==>
              Senders(before + [op] + after) == Senders(before) + [op.account.value] + Senders(after)
    ensures op.index != Some(0) ==> Senders(before + [op] + after) == Senders(before) + Senders(after)
  {
    SendersConcat(before + [op], after);
    assert (before + [op])[..|before|] == before;
  }

  /** No nil pointer is followed: every operation needs an index, index 0 an account, index 1 an account
      and an amount. */
  predicate IsComplete(op: IntentOperation) {
    && op.index.Some?
    && (op.index == Some(0) ==> op.account.Some?)
    && (op.index == Some(1) ==> op.account.Some? && op.amount.Some?)
  }

  function OptionsOf(network: string, source: Option<IntentOperation>, target: Option<IntentOperation>): Entries
    requires source.Some? ==> source.value.account.Some?
    requires target.Some? ==> target.value.account.Some? && target.value.amount.Some?
  {
    var base := map[CHAIN_NAME := Str(network)];
    WithTarget(if source.Some? then base[SRC_ADDR := Str(source.value.account.value)] else base, target)
  }

  function WithTarget(entries: Entries, target: Option<IntentOperation>): Entries
    requires target.Some? ==> target.value.account.Some? && target.value.amount.Some?
  {
    if target.None? then entries
    else entries[TRANSFER_AMOUNT := Str(target.value.amount.value)]
                [TARGET_ADDR := Str(target.value.account.value)]
                [TRANSFER_ID := Lookup(target.value.metadata, TRANSFER_ID)]
  }

  lemma TargetReplaced(entries: Entries, target: Option<IntentOperation>, op: IntentOperation)
    requires target.Some? ==> target.value.account.Some? && target.value.amount.Some?
    requires op.account.Some? && op.amount.Some?
    ensures WithTarget(WithTarget(entries, target), Some(op)) == WithTarget(entries, Some(op))
  {
  }

  lemma SourceUnderTarget(entries: Entries, target: Option<IntentOperation>, v: Any)
    requires target.Some? ==> target.value.account.Some? && target.value.amount.Some?
    ensures WithTarget(entries, target)[SRC_ADDR := v] == WithTarget(entries[SRC_ADDR := v], target)
  {
  }

  predicate AreComplete(ops: seq<IntentOperation>) {
    forall op :: op in ops ==> IsComplete(op)
  }

  lemma CompleteStep(ops: seq<IntentOperation>)
    requires ops != []
    ensures AreComplete(ops) <==> AreComplete(ops[..|ops| - 1]) && IsComplete(ops[|ops| - 1])
  {
    assert ops == ops[..|ops| - 1] + [ops[|ops| - 1]];
  }

  lemma {:induction false} AbsorbAllMeaning(network: string, ops: seq<IntentOperation>)
    ensures AbsorbAll(network, ops).Ok? <==> AreComplete(ops)
    ensures AreComplete(ops) ==>
              AbsorbAll(network, ops) ==
              Ok(Preprocessed(OptionsOf(network, LastAt(ops, 0), LastAt(ops, 1)), Senders(ops)))
  {
    if ops == [] {
      assert OptionsOf(network, None, None) == map[CHAIN_NAME := Str(network)];
    } else {
      var n := |ops| - 1;
      AbsorbAllMeaning(network, ops[..n]);
      CompleteStep(ops);
      if AreComplete(ops) {
        var source, target, senders := LastAt(ops[..n], 0), LastAt(ops[..n], 1), Senders(ops[..n]);
        assert senders + [] == senders;
        if ops[n].index == Some(0) {
          AbsorbSource(network, source, target, senders, ops[n]);
        } else if ops[n].index == Some(1) {
          AbsorbTarget(network, source, target, senders, ops[n]);
        }
      }
    }
  }

  lemma AbsorbSource(network: string, source: Option<IntentOperation>, target: Option<IntentOperation>,
                     senders: seq<string>, op: IntentOperation)
    requires source.Some? ==> source.value.account.Some?
    requires target.Some? ==> target.value.account.Some? && target.value.amount.Some?
    requires op.index == Some(0) && IsComplete(op)
    ensures Absorb(Preprocessed(OptionsOf(network, source, target), senders), op) ==
            Ok(Preprocessed(OptionsOf(network, Some(op), target), senders + [op.account.value]))
  {
    var base := map[CHAIN_NAME := Str(network)];
    var entries := if source.Some? then base[SRC_ADDR := Str(source.value.account.value)] else base;
    SourceUnderTarget(entries, target, Str(op.account.value));
    assert entries[SRC_ADDR := Str(op.account.value)] == base[SRC_ADDR := Str(op.account.value)];
  }

  lemma AbsorbTarget(network: string, source: Option<IntentOperation>, target: Option<IntentOperation>,
                     senders: seq<string>, op: IntentOperation)
    requires source.Some? ==> source.value.account.Some?
    requires target.Some? ==> target.value.account.Some? && target.value.amount.Some?
    requires op.index == Some(1) && IsComplete(op)
    ensures Absorb(Preprocessed(OptionsOf(network, source, target), senders), op) ==
            Ok(Preprocessed(OptionsOf(network, source, Some(op)), senders))
  {
    var base := map[CHAIN_NAME := Str(network)];
    TargetReplaced(if source.Some? then base[SRC_ADDR := Str(source.value.account.value)] else base, target, op);
  }

  /** Preprocessing depends on the last operations with index 0 and 1 and on the senders alone. */
  lemma PreprocessMeaning(network: Option<string>, ops: seq<IntentOperation>)
    ensures Preprocess(network, ops).Ok? <==> network.Some? && AreComplete(ops)
    ensures Preprocess(network, ops).Ok? ==>
              var options := OptionsOf(network.value, LastAt(ops, 0), LastAt(ops, 1))[GAS_PRICE := Str("1")];
              Preprocess(network, ops) == Ok(Preprocessed(options, Senders(ops)))
  {
    if network.Some? {
      AbsorbAllMeaning(network.value, ops);
    }
  }

  /** The entries of the options: the network and the gas price always, the source's account, and the
      target's amount, account and transfer id. */
  lemma PreprocessReads(network: Option<string>, ops: seq<IntentOperation>)
    requires Preprocess(network, ops).Ok?
    ensures var source, target := LastAt(ops, 0), LastAt(ops, 1);
            var options := Preprocess(network, ops).value.options;
            && network.Some? && Lookup(options, CHAIN_NAME) == Str(network.value)
            && Lookup(options, GAS_PRICE) == Str("1")
            && (source.Some? ==>
                  source.value.account.Some? && Lookup(options, SRC_ADDR) == Str(source.value.account.value))
            && (target.Some? ==>
                  && target.value.account.Some? && Lookup(options, TARGET_ADDR) == Str(target.value.account.value)
                  && target.value.amount.Some? && Lookup(options, TRANSFER_AMOUNT) == Str(target.value.amount.value)
                  && Lookup(options, TRANSFER_ID) == Lookup(target.value.metadata, TRANSFER_ID))
            && options.Keys == {CHAIN_NAME, GAS_PRICE} + (if source.Some? then {SRC_ADDR} else {})
                               + (if target.Some? then {TRANSFER_AMOUNT, TARGET_ADDR, TRANSFER_ID} else {})
  {
    PreprocessMeaning(network, ops);
    OptionsRead(network.value, ops);
    OptionsKeys(network.value, LastAt(ops, 0), LastAt(ops, 1));
  }

  lemma OptionsKeys(network: string, source: Option<IntentOperation>, target: Option<IntentOperation>)
    requires source.Some? ==> source.value.account.Some?
    requires target.Some? ==> target.value.account.Some? && target.value.amount.Some?
    ensures OptionsOf(network, source, target).Keys ==
            {CHAIN_NAME} + (if source.Some? then {SRC_ADDR} else {})
            + (if target.Some? then {TRANSFER_AMOUNT, TARGET_ADDR, TRANSFER_ID} else {})
  {
  }

  /** An operation with another index is ignored, wherever it stands. */
  lemma OthersIgnored(network: Option<string>, before: seq<IntentOperation>, op: IntentOperation,
                      after: seq<IntentOperation>)
    requires op.index.Some? && op.index.value != 0 && op.index.value != 1
    ensures Preprocess(network, before + [op] + after) == Preprocess(network, before + after)
  {
    if network.Some? {
      AbsorbIgnores(network.value, before, op, after);
    }
  }

  lemma {:induction false} AbsorbIgnores(network: string, before: seq<IntentOperation>, op: IntentOperation,
                                         after: seq<IntentOperation>)
    requires op.index.Some? && op.index.value != 0 && op.index.value != 1
    ensures AbsorbAll(network, before + [op] + after) == AbsorbAll(network, before + after)
  {
    if after == [] {
      assert before + [op] + after == before + [op] && before + after == before;
      assert (before + [op])[..|before|] == before;
    } else {
      var n := |after| - 1;
      AbsorbIgnores(network, before, op, after[..n]);
      assert (before + [op] + after)[..|before| + 1 + n] == before + [op] + after[..n];
      assert (before + after)[..|before| + n] == before + after[..n];
    }
  }

  ghost predicate AtMostOne(ops: seq<IntentOperation>, index: int64) {
    forall i, j :: 0 <= i < j < |ops| && ops[i].index == Some(index) ==> ops[j].index != Some(index)
  }

  lemma OnlyOne(ops: seq<IntentOperation>, index: int64, op: IntentOperation)
    requires AtMostOne(ops, index) && op in ops && op.index == Some(index)
    ensures LastAt(ops, index) == Some(op)
  {
    var last := LastAt(ops, index).value;
    var i :| 0 <= i < |ops| && ops[i] == op;
    var j :| 0 <= j < |ops| && ops[j] == last;
  }

  function IsAt(index: int64): IntentOperation -> int {
    (op: IntentOperation) => if op.index == Some(index) then 1 else 0
  }

  lemma {:induction false} AtMostOneCounts(ops: seq<IntentOperation>, index: int64)
    ensures Sum(ops, IsAt(index)) >= 0
    ensures Sum(ops, IsAt(index)) == 0 <==> forall i :: 0 <= i < |ops| ==> ops[i].index != Some(index)
    ensures Sum(ops, IsAt(index)) <= 1 <==> AtMostOne(ops, index)
  {
    if ops != [] {
      var n := |ops| - 1;
      AtMostOneCounts(ops[..n], index);
      assert forall i :: 0 <= i < n ==> ops[..n][i] == ops[i];
    }
  }

  lemma AtMostOnePermutes(ops: seq<IntentOperation>, ops': seq<IntentOperation>, index: int64)
    requires multiset(ops) == multiset(ops')
    ensures AtMostOne(ops, index) <==> AtMostOne(ops', index)
  {
    SumPermutation(ops, ops', IsAt(index));
    AtMostOneCounts(ops, index);
    AtMostOneCounts(ops', index);
  }

  /** There are as many senders as operations with index 0. */
  lemma {:induction false} SendersCount(ops: seq<IntentOperation>)
    requires AreComplete(ops)
    ensures |Senders(ops)| == Sum(ops, IsAt(0))
  {
    if ops != [] {
      CompleteStep(ops);
      SendersCount(ops[..|ops| - 1]);
    }
  }

  lemma {:induction false} OneSender(ops: seq<IntentOperation>)
    requires AtMostOne(ops, 0) && AreComplete(ops)
    ensures LastAt(ops, 0).None? ==> Senders(ops) == []
    ensures LastAt(ops, 0).Some? ==>
              IsComplete(LastAt(ops, 0).value) && Senders(ops) == [LastAt(ops, 0).value.account.value]
  {
    if ops != [] {
      var n := |ops| - 1;
      assert forall i :: 0 <= i < |ops| ==> ops[i] in ops;
      OneSender(ops[..n]);
      if ops[n].index == Some(0) {
        assert forall i :: 0 <= i < n ==> ops[..n][i].index != Some(0);
        assert LastAt(ops[..n], 0).None?;
      }
    }
  }

  /** With one source and one target at most, the order of the operations does not matter. */
  lemma PreprocessOrderIndependent(network: Option<string>, ops: seq<IntentOperation>, ops': seq<IntentOperation>)
    requires AtMostOne(ops, 0) && AtMostOne(ops, 1) && multiset(ops) == multiset(ops')
    ensures Preprocess(network, ops) == Preprocess(network, ops')
  {
    assert forall op :: op in ops <==> op in multiset(ops);
    assert forall op :: op in ops' <==> op in multiset(ops');
    AtMostOnePermutes(ops, ops', 0);
    AtMostOnePermutes(ops, ops', 1);
    PreprocessMeaning(network, ops);
    PreprocessMeaning(network, ops');
    SameLast(ops, ops', 0);
    SameLast(ops, ops', 1);
    if Preprocess(network, ops).Ok? {
      OneSender(ops);
      OneSender(ops');
    }
  }

  lemma SameLast(ops: seq<IntentOperation>, ops': seq<IntentOperation>, index: int64)
    requires AtMostOne(ops, index) && AtMostOne(ops', index)
    requires forall op :: op in ops <==> op in ops'
    ensures LastAt(ops, index) == LastAt(ops', index)
  {
    if LastAt(ops, index).Some? {
      OnlyOne(ops', index, LastAt(ops, index).value);
    }
  }

  /** Everything the pipeline needs of the intent. */
  predicate IsDeployable(ops: seq<IntentOperation>) {
    && AreComplete(ops)
    && LastAt(ops, 0).Some? && LastAt(ops, 1).Some?
    && var id := Lookup(LastAt(ops, 1).value.metadata, TRANSFER_ID);
       id.Str? && ParseInt64(id.text).Some?
  }

  /** The target's transfer id is a string and no int64. */
  predicate HasBadId(ops: seq<IntentOperation>) {
    LastAt(ops, 1).Some? && HasBadTransferId(LastAt(ops, 1).value.metadata)
  }

  /** Three calls in a row give deploy parameters exactly when the request has a network, the service is
      online and the intent is deployable, and then they are the intent's: nothing is lost or mixed up on
      the way. */
  lemma PipelineLossless(network: Option<string>, online: bool, ops: seq<IntentOperation>)
    ensures Pipeline(network, online, ops).Ok? <==> network.Some? && online && IsDeployable(ops)
    ensures Pipeline(network, online, ops).Ok? ==>
              var source, target := LastAt(ops, 0).value, LastAt(ops, 1).value;
              && IsComplete(source) && IsComplete(target)
              && var p := Pipeline(network, online, ops).value.params;
                 && p.chainName == network.value
                 && p.srcAccount == source.account.value
                 && p.targetAccount == target.account.value
                 && p.transferAmount == target.amount.value
                 && p.gasPrice == "1" && p.paymentAmount == ""
                 && Some(p.transferId) == ParseInt64(Lookup(target.metadata, TRANSFER_ID).text)
                 && Pipeline(network, online, ops).value.signers == [target.account.value]
    ensures Pipeline(network, online, ops) == Err(UnavailableOffline) <==>
            network.Some? && AreComplete(ops) && !online
    ensures Pipeline(network, online, ops) == Err(UnableToParse) <==>
            network.Some? && AreComplete(ops) && online && HasBadId(ops)
    ensures Pipeline(network, online, ops).Err? ==>
              Pipeline(network, online, ops).error in {UnavailableOffline, UnableToParse}
  {
    PreprocessMeaning(network, ops);
    if Preprocess(network, ops).Ok? && online {
      var options := Preprocess(network, ops).value.options;
      MetadataTransparent(options, Metadata(online, options).value);
      OptionsRead(network.value, ops);
    }
  }

  /** What the payloads find in the options of a complete intent. */
  lemma OptionsRead(network: string, ops: seq<IntentOperation>)
    requires AreComplete(ops)
    ensures var options := OptionsOf(network, LastAt(ops, 0), LastAt(ops, 1))[GAS_PRICE := Str("1")];
            && Lookup(options, CHAIN_NAME) == Str(network) && Lookup(options, GAS_PRICE) == Str("1")
            && Lookup(options, SRC_ADDR) ==
               (if LastAt(ops, 0).Some? then Str(LastAt(ops, 0).value.account.value) else Nil)
            && match LastAt(ops, 1)
               case None => Lookup(options, TRANSFER_ID) == Nil
               case Some(target) =>
                 && Lookup(options, TRANSFER_AMOUNT) == Str(target.amount.value)
                 && Lookup(options, TARGET_ADDR) == Str(target.account.value)
                 && Lookup(options, TRANSFER_ID) == Lookup(target.metadata, TRANSFER_ID)
  {
  }

  /** The keys asked for belong to the sources, the payload to be signed names the target: they are the
      same exactly when there is one source and the intent transfers from an account to itself. */
  lemma SignerIsTarget(network: Option<string>, online: bool, ops: seq<IntentOperation>)
    requires Pipeline(network, online, ops).Ok?
    ensures Preprocess(network, ops).Ok? && LastAt(ops, 0).Some? && LastAt(ops, 1).Some?
    ensures Pipeline(network, online, ops).value.signers == Preprocess(network, ops).value.requiredPublicKeys <==>
            AtMostOne(ops, 0) && LastAt(ops, 0).value.account == LastAt(ops, 1).value.account
  {
    PreprocessMeaning(network, ops);
    PipelineLossless(network, online, ops);
    SendersCount(ops);
    AtMostOneCounts(ops, 0);
    if AtMostOne(ops, 0) {
      OneSender(ops);
    }
  }

  /** Concretely: a transfer from "a" to "b" asks for the key of "a" and has "b" sign. */
  lemma SignerDiffers()
    ensures var ops := [IntentOperation(Some(0), Some("a"), None, map[]),
                        IntentOperation(Some(1), Some("b"), Some("5"), map[TRANSFER_ID := Str("7")])];
            && Pipeline(Some("casper"), true, ops).Ok?
            && Preprocess(Some("casper"), ops).Ok?
            && Pipeline(Some("casper"), true, ops).value.signers == ["b"]
            && Preprocess(Some("casper"), ops).value.requiredPublicKeys == ["a"]
  {
    var source := IntentOperation(Some(0), Some("a"), None, map[]);
    var target := IntentOperation(Some(1), Some("b"), Some("5"), map[TRANSFER_ID := Str("7")]);
    var ops := [source, target];
    assert ops[..1] == [source] && [source][..0] == [] && "7"[..0] == "";
    assert LastAt([source], 0) == Some(source) && LastAt(ops, 1) == Some(target);
    assert AreComplete(ops) && IsDeployable(ops);
    PipelineLossless(Some("casper"), true, ops);
    PreprocessMeaning(Some("casper"), ops);
    assert Senders([source]) == ["a"];
  }
}
