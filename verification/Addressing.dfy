/** How the client names accounts: a purse without its access-right suffix, and the main purse of a public key. */
module Addressing {
  import opened GoRuntime
  import opened Text
  import opened Decimals
  import opened Hex
  import opened Casper
  import opened Rosetta

  // ---------- purses

  /** `purse[:strings.LastIndex(purse, "-")]`, which panics when there is no separator. */
  function PurseWithoutIndex(purse: string): (r: Outcome<string>)
    ensures !r.Err?
  {
    var lastIndex := LastIndex(purse, '-');
    if lastIndex < 0 then Panic else Ok(purse[..lastIndex])
  }

  /** The account of a purse is the text before its last separator: whatever follows a separator and
      holds none itself is an access-right suffix. */
  lemma PurseCharacterised(purse: string, account: string)
    ensures PurseWithoutIndex(purse) == Ok(account) <==>
            account + "-" <= purse && '-' !in purse[|account| + 1..]
    ensures PurseWithoutIndex(purse).Panic? <==> '-' !in purse
  {
    LastIndexIsLast(purse, '-');
    var i := LastIndex(purse, '-');
    if PurseWithoutIndex(purse) == Ok(account) {
      assert purse[..i + 1] == account + "-";
    }
    if account + "-" <= purse && '-' !in purse[|account| + 1..] {
      assert purse[..|account| + 1] == account + "-";
      assert purse[|account|] == (account + "-")[|account|];
      assert forall j :: |account| < j < |purse| ==> purse[j] == purse[|account| + 1..][j - |account| - 1];
      assert i == |account|;
      assert account == purse[..i];
    }
  }

  /** Purses that differ in the suffix alone are one account, and only those. */
  lemma SameAccount(purse: string, other: string)
    requires PurseWithoutIndex(purse).Ok? && PurseWithoutIndex(other).Ok?
    ensures PurseWithoutIndex(purse) == PurseWithoutIndex(other) <==>
            exists account, suffix, suffix' ::
              && purse == account + "-" + suffix && '-' !in suffix
              && other == account + "-" + suffix' && '-' !in suffix'
  {
    var a, b := PurseWithoutIndex(purse).value, PurseWithoutIndex(other).value;
    PurseCharacterised(purse, a);
    PurseCharacterised(other, b);
    if a == b {
      assert purse == a + "-" + purse[|a| + 1..];
      assert other == a + "-" + other[|a| + 1..];
    }
    if account, suffix, suffix' :|
         && purse == account + "-" + suffix && '-' !in suffix
         && other == account + "-" + suffix' && '-' !in suffix'
    {
      assert purse[|account| + 1..] == suffix && other[|account| + 1..] == suffix';
      assert account + "-" == purse[..|account| + 1] == other[..|account| + 1];
      PurseCharacterised(purse, account);
      PurseCharacterised(other, account);
    }
  }

  // ---------- public keys

  const ED25519: string := "ed25519"
  const SECP256K1: string := "secp256k1"

  function Bytes(s: string): (bs: seq<byte>)
  {
    seq(|s|, i requires 0 <= i < |s| => (s[i] as int % 256) as byte)
  }

  function Algorithm(key: string): string
    requires |key| >= 2
  {
    if key[0..2] == "01" then ED25519 else SECP256K1
  }

  /** The text hashed for a public key: algorithm name, a zero byte, the decoded key. */
  function Preimage(key: string): seq<byte>
    requires |key| >= 2
  {
    Bytes(Algorithm(key)) + [0] + Decoded(key[2..])
  }

  function MainPurse(node: Node, key: string, stateRootHash: string): (r: Outcome<string>)
  {
    if |key| < 2 then Panic
    else Require(node.mainPurse(stateRootHash, "account-hash-" + Encode(node.blake2b256(Preimage(key)))),
                 CouldNotGetStateItem)
  }

  method GetMainPurseFromPublicKey(node: Node, accountAddr: string, stateRootHash: string)
    returns (r: Outcome<string>)
    ensures r == MainPurse(node, accountAddr, stateRootHash)
  {
    if |accountAddr| < 2 {
      return Panic;
    }
    var hashtype := SECP256K1;
    if accountAddr[0..2] == "01" {
      hashtype := ED25519;
    }
    var account := accountAddr[2..];
    var pubbyte, _ := DecodeString(account);
    var decodedSep, _ := DecodeString("00");
    var buffer := Bytes(hashtype) + decodedSep;
    buffer := buffer + pubbyte;
    assert decodedSep == [0] by {
      assert "00"[2..] == "";
    }
    var resHash := "account-hash-" + Encode(node.blake2b256(buffer));
    var item := node.mainPurse(stateRootHash, resHash);
    if item.None? {
      return Err(CouldNotGetStateItem);
    }
    return Ok(item.value);
  }

  /** The bytes hashed: "ed25519" for the tag "01", "secp256k1" for every other, a zero, and the key. */
  lemma PreimageBytes(key: string)
    requires |key| >= 2
    ensures "01" <= key ==> Preimage(key) == [101, 100, 50, 53, 53, 49, 57, 0] + Decoded(key[2..])
    ensures !("01" <= key) ==> Preimage(key) == [115, 101, 99, 112, 50, 53, 54, 107, 49, 0] + Decoded(key[2..])
  {
    assert Bytes(ED25519) == [101, 100, 50, 53, 53, 49, 57];
    assert Bytes(SECP256K1) == [115, 101, 99, 112, 50, 53, 54, 107, 49];
  }

  /** The purse is that of the state item named by the hex digest of these bytes; a missing item is the one
      error, and a key without tag the one panic. */
  lemma MainPurseExact(node: Node, key: string, root: string)
    ensures MainPurse(node, key, root).Panic? <==> |key| < 2
    ensures MainPurse(node, key, root).Err? ==> MainPurse(node, key, root) == Err(CouldNotGetStateItem)
    ensures |key| >= 2 ==>
              var prefix := if "01" <= key then [101, 100, 50, 53, 53, 49, 57, 0]
                            else [115, 101, 99, 112, 50, 53, 54, 107, 49, 0];
              var item := "account-hash-" + Encode(node.blake2b256(prefix + Decoded(key[2..])));
              forall purse :: MainPurse(node, key, root) == Ok(purse) <==> node.mainPurse(root, item) == Some(purse)
  {
    if |key| >= 2 {
      PreimageBytes(key);
    }
  }

  lemma PreimageParts(key: string, other: string)
    requires |key| >= 2 && |other| >= 2
    ensures Preimage(key) == Preimage(other) <==>
            Algorithm(key) == Algorithm(other) && Decoded(key[2..]) == Decoded(other[2..])
  {
    if Algorithm(key) == Algorithm(other) {
      SuffixEqual(Bytes(Algorithm(key)) + [0], Decoded(key[2..]), Decoded(other[2..]));
    } else if Algorithm(key) == ED25519 {
      TagsDiffer(Decoded(key[2..]), Decoded(other[2..]));
    } else {
      TagsDiffer(Decoded(other[2..]), Decoded(key[2..]));
    }
  }

  lemma TagsDiffer(s: seq<byte>, t: seq<byte>)
    ensures Bytes(ED25519) + [0] + s != Bytes(SECP256K1) + [0] + t
  {
    assert (Bytes(ED25519) + [0] + s)[0] == 'e' as int as byte;
    assert (Bytes(SECP256K1) + [0] + t)[0] == 's' as int as byte;
  }

  /** Over all keys: one preimage means one algorithm and one decodable hex body up to letter case. */
  lemma PreimageEqual(key: string, other: string)
    requires |key| >= 2 && |other| >= 2
    ensures Preimage(key) == Preimage(other) <==>
            && Algorithm(key) == Algorithm(other)
            && Lower(HexPrefix(key[2..])) == Lower(HexPrefix(other[2..]))
  {
    PreimageParts(key, other);
    DecodedEqual(key[2..], other[2..]);
  }

  lemma SuffixEqual(p: seq<byte>, s: seq<byte>, t: seq<byte>)
    ensures p + s == p + t <==> s == t
  {
    assert s == (p + s)[|p|..] && t == (p + t)[|p|..];
  }

  /** A public key in hex: an algorithm tag and whole bytes. */
  predicate IsPublicKey(key: string) {
    |key| >= 2 && (key[..2] == "01" || key[..2] == "02") && IsHex(key[2..])
  }

  /** On public keys the preimage is injective up to letter case. */
  lemma PreimageInjective(key: string, other: string)
    requires IsPublicKey(key) && IsPublicKey(other)
    ensures Preimage(key) == Preimage(other) <==> Lower(key) == Lower(other)
  {
    PreimageEqual(key, other);
    HexPrefixIsLongest(key[2..]);
    HexPrefixIsLongest(other[2..]);
    LowerSplit(key);
    LowerSplit(other);
    if Lower(key) == Lower(other) {
      TagsLower(key, other);
    }
    if Preimage(key) == Preimage(other) {
      assert key[..2] == other[..2];
    }
  }

  lemma TagsLower(key: string, other: string)
    requires IsPublicKey(key) && IsPublicKey(other) && Lower(key) == Lower(other)
    ensures key[..2] == other[..2] && Lower(key[2..]) == Lower(other[2..])
  {
    LowerPointwise(key);
    LowerPointwise(other);
    LowerPointwise(key[2..]);
    LowerPointwise(other[2..]);
    assert key[..2][1] == key[1] && other[..2][1] == other[1];
    assert Lower(key)[1] == key[1] && Lower(other)[1] == other[1];
    assert Lower(key[2..]) == Lower(key)[2..];
    assert Lower(other[2..]) == Lower(other)[2..];
  }

  lemma LowerSplit(s: string)
    requires |s| >= 2
    ensures Lower(s) == Lower(s[..2]) + Lower(s[2..])
  {
    LowerPointwise(s);
    LowerPointwise(s[..2]);
    LowerPointwise(s[2..]);
  }

  /** Beyond public keys it is not: an unknown tag counts as secp256k1, and what cannot be decoded is dropped. */
  lemma PreimageCollisions()
    ensures Preimage("02ab") == Preimage("7fab")
    ensures Preimage("01ab") == Preimage("01abzz")
  {
    assert "02ab"[2..] == "7fab"[2..] == "01ab"[2..] == "ab" && "01abzz"[2..] == "abzz";
    assert "abzz"[2..] == "zz" && "ab"[2..] == "";
    assert "02ab"[0..2] == "02" && "7fab"[0..2] == "7f" && "01ab"[0..2] == "01abzz"[0..2];
  }

  // ---------- balances

  /** The block of a partial identifier as `Balance` and `Block` read it: when both parts are given
      both are fetched and the height wins; when none is, the zero value stays. */
  function HeaderBlock(node: Node, id: Option<PartialBlockIdentifier>): (r: Outcome<BlockResponse>)
    ensures !r.Panic?
  {
    match id
    case None => Require(node.latestBlock, CouldNotGetBlock)
    case Some(p) =>
      var byHash :- if p.hash.Some? then Require(node.blockByHash(p.hash.value), CouldNotGetBlock) else Ok(ZERO_BLOCK);
      if p.index.Some? then Require(node.blockByHeight(WrapUint64(p.index.value)), CouldNotGetBlock) else Ok(byHash)
  }

  /** Which block is read, for all identifiers. */
  lemma HeaderExact(node: Node, id: Option<PartialBlockIdentifier>, b: BlockResponse)
    ensures HeaderBlock(node, id) == Ok(b) <==>
            match id
            case None => node.latestBlock == Some(b)
            case Some(PartialBlockIdentifier(None, None)) => b == BlockResponse("", 0, "", "", "", [])
            case Some(PartialBlockIdentifier(Some(hash), None)) => node.blockByHash(hash) == Some(b)
            case Some(PartialBlockIdentifier(None, Some(index))) => node.blockByHeight(WrapUint64(index)) == Some(b)
            case Some(PartialBlockIdentifier(Some(hash), Some(index))) =>
              node.blockByHash(hash).Some? && node.blockByHeight(WrapUint64(index)) == Some(b)
    ensures !HeaderBlock(node, id).Ok? ==> HeaderBlock(node, id) == Err(CouldNotGetBlock)
  {
  }

  /** The purse whose balance is asked for an account address. */
  function BalancePurse(node: Node, address: string, stateRootHash: string): (r: Outcome<string>)
  {
    if Contains(address, "account-hash") then
      Require(node.mainPurse(stateRootHash, address), CouldNotGetStateItem)
    else if Contains(address, "uref") then
      Ok(if Count(address, '-') == 1 then address + "-001" else address)
    else if |address| < 2 then Panic
    else if address[0..2] == "01" || address[0..2] == "02" then MainPurse(node, address, stateRootHash)
    else Err(InvalidAccount)
  }

  datatype AccountBalance = AccountBalance(value: string, id: BlockIdentifier)

  /** `account` is a pointer, followed once the block is there. */
  method Balance(node: Node, account: Option<string>, block: Option<PartialBlockIdentifier>)
    returns (r: Outcome<AccountBalance>)
    ensures match HeaderBlock(node, block)
            case Err(e) => r == Err(e)
            case Panic => false
            case Ok(b) =>
              if account.None? then r == Panic else
              match BalancePurse(node, account.value, b.stateRootHash)
              case Err(e) => r == Err(e)
              case Panic => r == Panic
              case Ok(purse) =>
                match node.accountBalance(b.stateRootHash, purse)
                case None => r == Err(CouldNotGetBalance)
                case Some(v) => r == Ok(AccountBalance(RenderInt(v), BlockIdentifier(b.hash, WrapInt64(b.height))))
  {
    var blockres := ZERO_BLOCK;
    if block.Some? {
      if block.value.hash.Some? {
        var answer := node.blockByHash(block.value.hash.value);
        if answer.None? {
          return Err(CouldNotGetBlock);
        }
        blockres := answer.value;
      }
      if block.value.index.Some? {
        var answer := node.blockByHeight(WrapUint64(block.value.index.value));
        if answer.None? {
          return Err(CouldNotGetBlock);
        }
        blockres := answer.value;
      }
    }
    if block.None? {
      var answer := node.latestBlock;
      if answer.None? {
        return Err(CouldNotGetBlock);
      }
      blockres := answer.value;
    }
    var stateRootHash := blockres.stateRootHash;
    var balanceUref := "";
    if account.None? {
      return Panic;
    }
    var address := account.value;
    if Contains(address, "account-hash") {
      var item := node.mainPurse(stateRootHash, address);
      if item.None? {
        return Err(CouldNotGetStateItem);
      }
      balanceUref := item.value;
    } else if Contains(address, "uref") {
      if 1 == Count(address, '-') {
        balanceUref := address + "-001";
      } else {
        balanceUref := address;
      }
    } else if |address| < 2 {
      return Panic;
    } else if address[0..2] == "01" || address[0..2] == "02" {
      var purse := GetMainPurseFromPublicKey(node, address, stateRootHash);
      if !purse.Ok? {
        return purse.PropagateFailure();
      }
      balanceUref := purse.value;
    } else {
      return Err(InvalidAccount);
    }
    var balance := node.accountBalance(stateRootHash, balanceUref);
    if balance.None? {
      return Err(CouldNotGetBalance);
    }
    return Ok(AccountBalance(RenderInt(balance.value), BlockIdentifier(blockres.hash, WrapInt64(blockres.height))));
  }

  // ---------- from the ledger back to the balance

  /** `uref-<body>-<suffix>`. */
  ghost predicate IsUref(purse: string) {
    exists body, suffix :: IsUrefOf(purse, body, suffix)
  }

  ghost predicate IsUrefOf(purse: string, body: string, suffix: string) {
    purse == "uref-" + body + "-" + suffix && '-' !in body && '-' !in suffix
  }

  predicate TakesUrefBranch(address: string) {
    Contains(address, "uref") && !Contains(address, "account-hash")
  }

  /** An address that reaches the uref branch is asked for by a purse of its own account exactly when
      it holds one separator. */
  lemma UrefBranch(node: Node, address: string, root: string)
    requires TakesUrefBranch(address)
    ensures BalancePurse(node, address, root).Ok?
    ensures PurseWithoutIndex(BalancePurse(node, address, root).value) == Ok(address) <==> Count(address, '-') == 1
  {
    if Count(address, '-') == 1 {
      PurseCharacterised(address + "-001", address);
      assert (address + "-001")[..|address| + 1] == address + "-";
      assert (address + "-001")[|address| + 1..] == "001";
    }
  }

  /** Which purse is asked for, for all addresses: a ledger address gets the suffix "-001" and a full uref
      stays; and which addresses are refused, panic, or name a state item that is missing. */
  lemma BalancePurseExact(node: Node, address: string, root: string)
    ensures TakesUrefBranch(address) && multiset(address)['-'] == 1 ==>
              BalancePurse(node, address, root) == Ok(address + "-001")
    ensures TakesUrefBranch(address) && multiset(address)['-'] != 1 ==>
              BalancePurse(node, address, root) == Ok(address)
    ensures Contains(address, "account-hash") ==>
              forall purse :: BalancePurse(node, address, root) == Ok(purse) <==>
                              node.mainPurse(root, address) == Some(purse)
    ensures IsKeyAddress(address) ==> BalancePurse(node, address, root) == MainPurse(node, address, root)
    ensures BalancePurse(node, address, root).Panic? <==> |address| < 2
    ensures BalancePurse(node, address, root) == Err(InvalidAccount) <==>
            |address| >= 2 && !Contains(address, "account-hash") && !Contains(address, "uref") && !IsKeyAddress(address)
    ensures BalancePurse(node, address, root).Err? && BalancePurse(node, address, root) != Err(InvalidAccount) ==>
              BalancePurse(node, address, root) == Err(CouldNotGetStateItem)
  {
    CountIsMultiplicity(address, '-');
    MainPurseExact(node, address, root);
  }

  /** An address that is asked for as a public key. */
  predicate IsKeyAddress(address: string) {
    && ("01" <= address || "02" <= address)
    && !Contains(address, "account-hash") && !Contains(address, "uref")
  }

  lemma LedgerAddressShape(purse: string, body: string, suffix: string)
    requires IsUrefOf(purse, body, suffix)
    ensures PurseWithoutIndex(purse) == Ok("uref-" + body)
    ensures TakesUrefBranch("uref-" + body)
    ensures Count("uref-" + body, '-') == 1
  {
    var a := "uref-" + body;
    assert purse[..|a| + 1] == a + "-" && purse[|a| + 1..] == suffix;
    PurseCharacterised(purse, a);
    assert OccursAt(a, "uref", 0);
    assert forall j :: 5 <= j < |a| ==> a[j] == body[j - 5];
    forall i | 0 <= i <= |a|
      ensures !OccursAt(a, "account-hash", i)
    {
      if OccursAt(a, "account-hash", i) {
        OccursChar(a, "account-hash", i, 7);
      }
    }
    CountIsMultiplicity(a, '-');
    assert multiset(a) == multiset("uref-") + multiset(body);
  }

  /** Every address the ledger builds from a uref takes the uref branch of `Balance`, whatever the
      node, and the purse asked for belongs to that same address. */
  lemma LedgerAddressRoundTrip(node: Node, purse: string, root: string)
    requires IsUref(purse)
    ensures var address := PurseWithoutIndex(purse);
            && address.Ok?
            && TakesUrefBranch(address.value)
            && BalancePurse(node, address.value, root).Ok?
            && PurseWithoutIndex(BalancePurse(node, address.value, root).value) == address
            && IsUref(BalancePurse(node, address.value, root).value)
  {
    var body, suffix :| IsUrefOf(purse, body, suffix);
    LedgerAddressShape(purse, body, suffix);
    var a := "uref-" + body;
    UrefBranch(node, a, root);
    assert a + "-001" == "uref-" + body + "-" + "001";
    assert IsUrefOf(a + "-001", body, "001");
  }

  /** The node answers a balance by purse, not by access right. */
  ghost predicate IgnoresAccessRights(node: Node) {
    forall root, purse, other ::
      PurseWithoutIndex(purse).Ok? && PurseWithoutIndex(purse) == PurseWithoutIndex(other) ==>
        node.accountBalance(root, purse) == node.accountBalance(root, other)
  }

  /** Asking by public key and asking by the address its operations carry reads one balance. */
  lemma KeyAndLedgerAddressAgree(node: Node, key: string, root: string)
    requires IgnoresAccessRights(node) && IsPublicKey(key)
    requires MainPurse(node, key, root).Ok? && IsUref(MainPurse(node, key, root).value)
    ensures var purse := MainPurse(node, key, root).value;
            var address := PurseWithoutIndex(purse);
            && BalancePurse(node, key, root) == Ok(purse)
            && address.Ok? && BalancePurse(node, address.value, root).Ok?
            && node.accountBalance(root, BalancePurse(node, address.value, root).value) ==
               node.accountBalance(root, purse)
  {
    LedgerAddressRoundTrip(node, MainPurse(node, key, root).value, root);
    KeyTakesKeyBranch(key);
    assert key[0..2] == key[..2];
  }

  lemma KeyTakesKeyBranch(key: string)
    requires IsPublicKey(key)
    ensures !Contains(key, "account-hash") && !Contains(key, "uref")
  {
    forall i | 0 <= i <= |key|
      ensures !OccursAt(key, "account-hash", i) && !OccursAt(key, "uref", i)
    {
      if OccursAt(key, "account-hash", i) {
        KeyHasNoSeparatorOrU(key, i + 7);
        OccursChar(key, "account-hash", i, 7);
      }
      if OccursAt(key, "uref", i) {
        KeyHasNoSeparatorOrU(key, i);
        OccursChar(key, "uref", i, 0);
      }
    }
  }

  lemma KeyHasNoSeparatorOrU(key: string, i: nat)
    requires IsPublicKey(key) && i < |key|
    ensures key[i] != '-' && key[i] != 'u'
  {
    if i >= 2 {
      assert key[i] == key[2..][i - 2];
    } else {
      assert key[i] == key[..2][i];
    }
  }

  function AccountHash(node: Node, key: string): string
    requires |key| >= 2
  {
    "account-hash-" + Encode(node.blake2b256(Preimage(key)))
  }

  /** Asking by account hash reads the purse that asking by public key does. */
  lemma AccountHashAgrees(node: Node, key: string, root: string)
    requires IsPublicKey(key)
    ensures BalancePurse(node, AccountHash(node, key), root) == BalancePurse(node, key, root)
  {
    KeyTakesKeyBranch(key);
    assert key[0..2] == key[..2];
    assert OccursAt(AccountHash(node, key), "account-hash", 0);
  }
}
