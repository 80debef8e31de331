# A verified model of the Casper to Rosetta ledger translation

The Casper implementation of the Rosetta API turns the blocks of a Casper node (deploys, native transfers, execution results, purses, public keys) into a double-entry ledger: blocks of transactions, each a list of signed operations on account addresses. It also answers balances for those addresses and, in the other direction, threads a transfer intent through three construction calls into deploy parameters. This project models that logic in Dafny and proves what it promises.

What `Block` looks up for an identifier (the block, its transfers, the proposer's purse, what each deploy settles) is gathered in `Blocks.Resolved`; the results about blocks and runs are stated over all such values, and `Blocks.GetBlock` shows that on any node the code answers over the one `Blocks.Resolve` finds.

The node is a value: each of its RPC calls is a function of its arguments (`Casper.Node`), so one call asked twice answers the same. BLAKE2b is an arbitrary function of the node. Every Go call ends with a value, an error or a run-time panic (`GoRuntime.Outcome`), so malformed purses, short keys, missing results and nil pointers in a request (block, account, network and operation identifiers, amounts) are inside the model and not excluded by preconditions. A Go string is a sequence of bytes; each `char` stands for one byte. `int64` and `uint64` conversions wrap around as in Go.

| file | contents |
|---|---|
| `GoRuntime.dfy`, `Text.dfy`, `Decimals.dfy`, `Hex.dfy` | Go outcomes and integers, string searches, decimal text, base 16 (section 8 of RFC 4648) |
| `Casper.dfy`, `Rosetta.dfy` | the node's answers, the Rosetta types |
| `Addressing.dfy` | purses, public-key preimages, main purses, `Balance` |
| `Transactions.dfy` | `CreateRosTransaction` and the shape of its operations |
| `Sequences.dfy`, `Walks.dfy` | enumerations, permutations, sums; walks over a map in an unspecified order |
| `Grouping.dfy` | the index from deploy hash to transfer pointers, on heap cells, as written and as meant |
| `Blocks.dfy` | `Block`, with the walk over its index in an arbitrary order |
| `Agreement.dfy` | all answers of `Block`, `BlockTransaction`, their agreement, links between blocks |
| `Ledger.dfy`, `Replay.dfy` | replaying blocks on balances, conservation, the simple ledger, gross and effective views |
| `Construction.dfy` | preprocess, metadata, payloads |

## Results

- **Order of the walk.** Go walks a map in an unspecified order. `AnswersExactly` says which blocks `Block` can answer: those that list the transactions of their deploys, each once, in any order. Hence two runs over the same blocks reach the same balances (`ReplayOrderIndependent`).
- **The ledger.** Replaying any run of blocks is a simple ledger: move each deploy's fee from payer to proposer, then move each transfer of a successful deploy in the order the block lists them (`ReplayRefinesMoves`). The sum over all accounts never changes (`ReplayConserves`). Two views are kept: *gross* posts every operation, *effective* only those whose status the published table calls successful; they differ by the net fees of failed deploys (`GrossMinusEffective`).
- **Addresses.** Every address posted to is one that `Balance` reads back as itself (`PostedAddressesReadBack`); a balance asked by public key, by account hash or by ledger address is read from one purse.
- **Construction.** The pipeline gives deploy parameters exactly when the request names a network, the service is online and the intent is deployable, and they are the intent's (`PipelineLossless`).
- **What is read.** Each lookup has its exact condition in the node's own terms: which block and transfers an identifier reads (`FetchExact`), which bytes name a key's account (`PreimageBytes`, `MainPurseExact`), which purse an address asks for (`BalancePurseExact`), what a deploy settles (`SettlesExactly`), which deploys are answered and with which operations (`DeploysAnswered`, `AnswerShape`).

## Where the code and its promise differ

- `casper/client.go:179` stores `&trs`, the address of the range variable. Under the Go version of `go.mod:19` and `Dockerfile:24` all iterations share it, so every stored pointer reads the last transfer of the block. The model has both loops: `Aliasing.Shared` is the code as written, `Aliasing.Own` the transfer's own element, as `casper/client.go:270` takes it. `SharedBlockExact` says exactly when the two blocks are equal, `AgreementAsWritten` exactly when the code's `Block` and `BlockTransaction` agree about a deploy, `BlockTransaction` panicking included, and `SharedDiffers` gives two inputs: one where the answers differ, one where `Block` answers and `BlockTransaction` panics. Conservation, order independence and the relation of the two views hold of both; `ReplayRefinesMoves` states what the code as written moves instead.
- The comment at `casper/client.go:112-114` promises the current block for an identifier with neither hash nor index. The code looks up the purse of an empty proposer key and panics on every node (`EmptyIdentifierPanics`).
- The comment at `casper/client.go:316` says that the cost of a failed deploy moves, while the operations carry the status that `casper/types.go:118-127` declares unsuccessful: hence the two views.
- `casper/client.go:256-265` takes the block from the deploy and the transfers from the block asked for, and never compares the two. `OtherBlockExact` says what a deploy of another block is answered and exactly when that is right; `OtherBlockLosesTransfers` is the case of a block that holds none of its transfers.
- `services/construction_service.go:92-93` asks for the key of the source, and line 162 names the target in the payload to be signed (`SignerIsTarget` is the exact condition, `SignerDiffers` an input).
- A public key with an unknown tag counts as secp256k1 and what cannot be decoded is dropped (`PreimageCollisions`); `PreimageEqual` is the exact condition over all keys.

## Model

| member | source | states |
|---|---|---|
| `GoRuntime.Int64RoundTrip` | casper/client.go:136-137 | a height converted to int64 and back is itself for every uint64, and is negative from 2^63 on |
| `GoRuntime.WrapsAround` | casper/client.go:136-143 | conversions keep the low 64 bits of every integer |
| `Decimals.MinusSign` | casper/client.go:398-399 | prefixing a minus sign makes a number exactly of the unsigned digit strings, and negates it, `-0` included |
| `Decimals.LegsCancel` | casper/client.go:314-315 | the two legs of an amount sum to zero exactly when the amount is unsigned digits or is worth nothing |
| `Decimals.ZeroTest` | casper/client.go:355-357 | the textual comparison with "0" is the numeric one exactly when the text is no padded zero, so always for canonical text |
| `Decimals.RenderParse` | casper/client.go:584 | the text written for a balance is canonical, with a minus sign exactly below zero, and reads back as that balance; an int64 reads back as itself |
| `Decimals.ParseRender` | casper/client.go:584 | a canonical text is the one text written for its number |
| `Decimals.ParseExact` | services/construction_service.go:138 | what reads as a number, signs included, and that ParseInt refuses exactly what an int64 cannot hold |
| `Text.LastIndexIsLast` | casper/client.go:284 | the index found holds the character, nothing after it does, and it is found exactly when there is one |
| `Text.ContainsExact` | casper/client.go:549-556 | a text contains another exactly when it can be cut out of it |
| `Text.CountIsMultiplicity` | casper/client.go:557 | the count is the number of occurrences |
| `Hex.DecodeString` | casper/client.go:601 | the decoding loop gives the bytes of the pairs before the first bad character, and reports success exactly for whole bytes of hex digits |
| `Hex.AlphabetOrder` | casper/client.go:609 | the sixteen lower-case digits in their order |
| `Hex.HexCharExact` | casper/client.go:601 | the decodable characters are the digits of the alphabet in either case |
| `Hex.DecodedAt` | casper/client.go:601 | each byte has the digits of its own pair, the first being the high one |
| `Hex.HexPrefixIsLongest` | casper/client.go:601 | what is decoded is the longest prefix of whole hex pairs, everything exactly for valid hex |
| `Hex.DecodeEncode` | casper/client.go:609 | encoding gives valid hex that decodes to the same bytes |
| `Hex.EncodeDecode` | casper/client.go:601 | decoding and encoding gives the decodable prefix in lower case |
| `Hex.DecodedEqual` | casper/client.go:601 | two strings decode alike exactly when their decodable prefixes agree up to letter case |
| `Addressing.PurseCharacterised` | casper/client.go:283-286 | the account of a purse is the text before its last separator, for all strings; it panics exactly without a separator |
| `Addressing.SameAccount` | casper/client.go:283-286 | two purses are one account exactly when they differ in the access-right suffix alone |
| `Addressing.GetMainPurseFromPublicKey` | casper/client.go:595-617 | the buffer built step by step is the tagged preimage whose hash names the state item; short keys panic |
| `Addressing.PreimageBytes` | casper/client.go:596-606 | the bytes hashed for every key: the spelled-out algorithm name, a zero byte, the decoded body |
| `Addressing.MainPurseExact` | casper/client.go:595-617 | the purse is that of the state item "account-hash-" and the digest of these bytes; a missing item is the one error, a short key the one panic |
| `Addressing.PreimageEqual` | casper/client.go:596-606 | over all keys, equal preimages mean one algorithm choice and one decodable hex body up to letter case, and conversely |
| `Addressing.PreimageInjective` | casper/client.go:596-606 | on public keys the preimage is injective up to letter case |
| `Addressing.PreimageCollisions` | casper/client.go:596-601 | two keys with unknown tag or undecodable tail collide with a public key |
| `Addressing.HeaderExact` | casper/client.go:527-547 | which block is read for every identifier, the zero value when it has neither part |
| `Addressing.Balance` | casper/client.go:519-594 | which block, which purse and which text the answer has, and every error and panic on the way, that of a nil account after the block is there |
| `Addressing.BalancePurseExact` | casper/client.go:549-580 | for every address the purse asked for: "-001" added to a ledger address, a full uref unchanged, a state item's or a key's purse; and exactly which addresses are refused or panic |
| `Addressing.UrefBranch` | casper/client.go:556-561 | an address in the uref branch is asked for by a purse of its own account exactly when it holds one separator |
| `Addressing.LedgerAddressRoundTrip` | casper/client.go:549-561 | the address cut from any uref takes the uref branch and the purse asked for is a uref that cuts back to it |
| `Addressing.KeyAndLedgerAddressAgree` | casper/client.go:556-576 | a balance by public key and by the address its operations carry is one balance, if the node ignores access rights |
| `Addressing.AccountHashAgrees` | casper/client.go:549-566 | a balance by account hash asks for the purse that the public key does |
| `Transactions.AppendTransfers` | casper/client.go:396-433 | the loop appends the pairs of the pointed-to transfers, numbered from 2 on, and panics as soon as a purse has no separator |
| `Transactions.CreateRosTransaction` | casper/client.go:288-446 | the transaction for a deploy and its transfer pointers, with every error and panic |
| `Transactions.SettlesExactly` | casper/client.go:290-358 | a deploy settles, failed or not, exactly when it was executed, purse and payment can be read and there is a result; payer and fee text, and the error or panic of each missing part |
| `Transactions.TransferOpsOutcome` | casper/client.go:406-424 | the operations of transfers panic exactly when some purse has no separator |
| `Transactions.TransactionShape` | casper/client.go:317-434 | two fee operations and, for a successful deploy only, one pair for each transfer in order: addresses, amounts, kinds and statuses |
| `Transactions.OperationIndices` | casper/client.go:319-421 | position is index exactly while it fits an int64, so below 2^62 - 1 transfers; related operations come before |
| `Transactions.FeeIsPaymentOrCost` | casper/client.go:300-358 | in numbers: a failed deploy pays its cost; a successful one its payment, or the cost when that is worth nothing, exactly if a payment worth nothing is written "0" or the cost is worth nothing too; the signer's main purse pays |
| `Grouping.RangeAsWritten` | casper/client.go:175-180 | every pointer the loop stores is the one loop variable, each deploy has as many as it has transfers, and the variable ends as the last transfer |
| `Grouping.GroupByDeployAsWritten` | casper/client.go:173-187 | as written, the keys are exactly the deploys of the transfers and of the body, and each group reads as copies of the last transfer |
| `Grouping.GroupByDeployAsMeant` | casper/client.go:173-187 | as meant, the keys are the same, and each group points to the deploy's own transfers in order |
| `Grouping.DeployKeysExact` | casper/client.go:173-187 | a deploy is a key exactly when the body names it or a transfer belongs to it |
| `Grouping.AddDeploysWithoutTransfers` | casper/client.go:182-187 | deploys of the body without transfers get an empty group, the others keep theirs |
| `Grouping.FilterInOrder` | casper/client.go:268-272 | a group keeps the block's order: its elements stand at increasing positions |
| `Grouping.PositionsExact` | casper/client.go:268-272 | those positions are exactly the deploy's |
| `Grouping.GroupsPartition` | casper/client.go:173-187 | over any enumeration of the keys the groups hold every transfer of the block exactly once |
| `Blocks.FetchBlock` | casper/client.go:119-159 | which block and transfers an identifier reads, each fetched and the height winning when both parts are given |
| `Blocks.FetchExact` | casper/client.go:119-159 | for every identifier, which block and which transfers are read, and nothing else |
| `Blocks.FetchFails` | casper/client.go:119-159 | which lookup decides the error when several fail |
| `Blocks.ResolveExact` | casper/client.go:119-203 | what is resolved is what is read: block and transfers, the main purse of that block's proposer at its state root, each deploy's settlement; and how it fails |
| `Blocks.VisitDeploy` | casper/client.go:200-205 | the body of the walk: the transaction of one deploy from what its pointers lead to |
| `Blocks.FillTransactions` | casper/client.go:188-208 | the walk visits every key once in some order, stops at the first failure, and otherwise writes every slot of the array |
| `Blocks.GetBlock` | casper/client.go:115-216 | `Block` as written ends as its lookups do, or else as a walk over some enumeration of the deploys |
| `Blocks.GetBlockAsMeant` | casper/client.go:115-216 | the same for `Block` as meant |
| `Agreement.BlockTransaction` | casper/client.go:218-281 | the transaction is built from the filtered transfers of the identified block and the block the deploy names; a nil block identifier panics once that block is there |
| `Agreement.TransactionExact` | casper/client.go:218-281 | on every node, `BlockTransaction` answers a transaction exactly when all it looks up is there and the deploy can be posted from it |
| `Agreement.TransactionOutcome` | casper/client.go:223-280 | the first missing part decides the error or panic; otherwise it ends as the visit of the deploy does |
| `Agreement.CollectTransfers` | casper/client.go:267-272 | the loop collects pointers to the cells of exactly the deploy's transfers, in order, so their values are the filtered ones |
| `Agreement.SameHeader` | casper/client.go:527-547 | `Balance` and `Block` read one block for an identifier |
| `Agreement.IdentifierPrecedence` | casper/client.go:88-110 | given both parts, `Block` and `GetBlockResponse` name one block exactly when the node has one for both |
| `Agreement.BlockResponseExact` | casper/client.go:88-110 | a hash names the block with that hash, an index alone the one at that height, neither is refused |
| `Agreement.AllOrNothing` | casper/client.go:199-208 | once the lookups succeed, `Block` succeeds exactly when every deploy does, in whatever order, and otherwise fails as one of them |
| `Agreement.AnswersExactly` | casper/client.go:188-215 | the possible answers are exactly the blocks with the right identifiers whose transactions are those of the deploys, each once, under distinct hashes |
| `Agreement.DeploysAnswered` | casper/client.go:173-208 | an answer has a transaction for each deploy of the body and of the transfers, and for no other |
| `Agreement.AnswerShape` | casper/client.go:175-434 | in every answer a transaction has the fee operations its deploy settled and, if it succeeded, pairs for its own transfers in order; as written, as many pairs for the block's last transfer |
| `Agreement.BlockOrderIndependent` | casper/client.go:199-208 | two walks over one block succeed together, and their answers differ in the order of transactions alone |
| `Agreement.EmptyIdentifierPanics` | casper/client.go:112-123 | an identifier with neither part panics on every node |
| `Agreement.EntryOutcome` | casper/client.go:288-446 | a deploy's transaction exists exactly when it settles and payer, proposer and, unless it failed, every transfer of its group have a separator; otherwise a panic, or the failure of settling |
| `Agreement.AnswerExists` | casper/client.go:188-215 | `Block` has an answer exactly when every deploy of the block can be posted so |
| `Agreement.SameOutcome` | casper/client.go:248-280 | on a consistent node `BlockTransaction` ends as the visit of that deploy in `Block` as meant, errors and panics included |
| `Agreement.BlockTransactionAgrees` | casper/client.go:262-280 | `BlockTransaction` finds the one transaction with that hash in `Block` as meant |
| `Agreement.OtherBlockExact` | casper/client.go:256-280 | asked for with another block, a deploy is answered from its own header and the other block's transfers: its own transaction exactly when it did not succeed or these look like its own |
| `Agreement.OtherBlockLosesTransfers` | casper/client.go:256-280 | with a block that holds none of its transfers, the answer is the fee alone, and right exactly for a deploy that failed or made none |
| `Agreement.SharedEntryExact` | casper/client.go:175-180 | for all deploys, failing ones too: the entry as written is the intended one exactly when the deploy did not succeed, or each of its transfers looks like the block's last, or neither can be posted |
| `Agreement.SharedBlockExact` | casper/client.go:175-208 | as written, the block is an answer as meant exactly when every deploy can be posted as meant and each transfer of a successful one looks like the last; where either answers, the latter alone decides equality |
| `Agreement.AgreementAsWritten` | casper/client.go:173-280 | for each answer of the code's `Block`, `BlockTransaction` succeeds with the deploy's transaction in it exactly when the deploy failed or each of its transfers looks like the last of the block |
| `Agreement.SharingShows` | casper/client.go:175-280 | otherwise `BlockTransaction` has another transaction, or panics where a purse of the deploy has no separator, and the block is no answer as meant |
| `Agreement.TwoTransfersDisagree` | casper/client.go:175-280 | on a node with one block of two transfers this happens for every first transfer that does not look like the second |
| `Agreement.SharedDiffers` | casper/client.go:175-280 | two such nodes: another amount, for which the answers differ, and a purse without separator, for which `Block` answers and `BlockTransaction` panics |
| `Agreement.ParentIndex` | casper/client.go:161-171 | over all uint64 heights the identifier has the block's hash and its parent the header's parent hash; the parent's index leads back to the height before, genesis being its own parent; the index is the height exactly below 2^63 |
| `Agreement.ChainLinks` | casper/client.go:161-171 | on a linked chain each answer's parent is the identifier of the answer before, whatever the walks |
| `Replay.ReplayOrderIndependent` | casper/client.go:199-208 | two runs over the same blocks have the same transactions up to order and reach the same balance for every account, gross or effective |
| `Replay.DecimalNode` | casper/client.go:304-358 | the fee and transfer amounts of a block are decimal when the node's costs, payments and transfers are |
| `Replay.EntryIsBalanced` | casper/client.go:317-433 | the operations of every transaction cancel pair by pair, as written too |
| `Replay.ReplayConserves` | casper/client.go:313-434 | over any run, in either view, as written and as meant, the sum over all accounts is unchanged |
| `Ledger.MovesConserve` | casper/client.go:313-434 | the simple ledger of moves keeps the sum over all accounts |
| `Replay.EntryNet` | casper/client.go:313-434 | for every account, a transaction nets to its fee move and its posted transfers |
| `Replay.PostedIsMoved` | casper/client.go:173-187 | posting transfers deploy by deploy nets to moving them in the block's own order |
| `Replay.ReplayRefinesMoves` | casper/client.go:313-434 | replaying a run equals the simple ledger of fee moves and transfers of successful deploys, for every account and any order of the fees |
| `Replay.GrossMinusEffective` | casper/types.go:118-127 | for every account the gross and the effective replay differ by its net fees from failed deploys |
| `Replay.PostedAddressesReadBack` | casper/client.go:317-432 | every address in every operation of a block over uref purses is asked for by a purse of that address |
| `Construction.ConstructionPreprocess` | services/construction_service.go:77-104 | the loop over the operations gives the specified options and keys, and panics on a nil network, operation identifier, account or amount |
| `Construction.ConstructionMetadata` | services/construction_service.go:107-129 | refused exactly when offline; the answer has the six named keys alone, each reads as in the options, and payloads from it are those from the options |
| `Construction.MetadataTransparent` | services/construction_service.go:120-150 | payloads depend on what the six named keys read alone |
| `Construction.ConstructionPayloads` | services/construction_service.go:132-171 | succeeds exactly when the six entries are strings and the id an int64, is an error exactly for a string id that is none, panics otherwise; each parameter is its entry and the signer the target |
| `Construction.PreprocessMeaning` | services/construction_service.go:85-103 | preprocessing succeeds exactly when no nil pointer is followed, and depends on the last operations 0 and 1 and the senders alone |
| `Construction.LastIsLast` | services/construction_service.go:85-101 | what counts as the operation of an index: the one after which no other has that index |
| `Construction.SendersInOrder` | services/construction_service.go:86-94 | one required key for each operation 0, where it stands, and none for any other |
| `Construction.PreprocessReads` | services/construction_service.go:84-101 | the options' keys exactly, and each entry traced to the network, the source or the target |
| `Construction.OthersIgnored` | services/construction_service.go:86-100 | an operation with any other index is ignored wherever it stands |
| `Construction.PreprocessOrderIndependent` | services/construction_service.go:86-100 | with at most one source and one target, every permutation of the operations gives the same answer, a panic included |
| `Construction.PipelineLossless` | services/construction_service.go:120-150 | the three calls give parameters exactly when there is a network, the service is online and the intent deployable, and they are those of the last operations 0 and 1, the network and the parsed transfer id, the payment being left empty; both errors have their exact condition |
| `Construction.SignerIsTarget` | services/construction_service.go:92-168 | for every intent that deploys, the payload's signers are the required keys exactly when there is one source and it is the target's account |
| `Construction.SignerDiffers` | services/construction_service.go:92-168 | a transfer from "a" to "b" asks for the key of "a" and has "b" sign |

## Left out

- The RPC client, `ReadPaymentAmount`, BLAKE2b and the key library: casper-golang-sdk and golang.org/x/crypto are not part of this model; their calls are functions of the node, and a state item always has a main purse.
- Failing calls in time: two calls with the same argument answer the same, so a node that changes between calls is not modelled.
- Error texts: errors are told apart by kind; when several deploys fail, which failure `Block` reports depends on the walk, and the model allows each.
- Nil requests, nil elements of a block's transfer list and a nil list of execution results: a request is there, a missing list is empty, and elements are values.
- `Status`, timestamps, peers, log lines, currency and metadata maps of the answers: fields that are copied.
- `CreateOperation` (casper/client.go:448-510): nothing calls it.
- `NewDeploy` and the JSON text of the unsigned transaction: `NewDeploy` ignores its parameters, so the model stops at the deploy parameters.
- The loops over the cells of a transfer list run over a sequence of cells and not over one array: the list is never resized or assigned to after it is decoded.
- Option and metadata keys: the six distinct strings of services/construction_service.go:38-44 are constructors of a datatype.
- `ConstructionDerive`, combine, hash, parse and submit, and the other services: key-library calls, empty bodies or mode checks.
- Replay.ReplayConserves: amounts are taken to be unsigned decimal digits, which the node promises and the code does not check; `Decimals.LegsCancel` says exactly when a pair cancels.
- Replay.ReplayRefinesMoves: the same assumption on amounts.
- Replay.GrossMinusEffective: the same assumption on amounts.
- Agreement.BlockTransactionAgrees: the node is taken to answer about a block alike by hash and by height, and each deploy to name its block.
- Agreement.AgreementAsWritten: the same assumption on the node.
- Agreement.SharingShows: the same assumption on the node.
- Agreement.OtherBlockExact: the same assumption on the node about the deploy's own block; `TransactionExact` has none.
- Agreement.OtherBlockLosesTransfers: the same assumption.
- Addressing.KeyAndLedgerAddressAgree: the node is taken to answer a balance by purse whatever the access right.
