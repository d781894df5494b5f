/**
 Discovery of legacy bridged tokens: three event scans feed one set of token addresses, asset ids
 are resolved through the vault, and the set is written as a sorted list.
 */
module TokenDiscovery {
  import opened Wrappers
  import opened Ordering
  import opened LogPagination

  /** Addresses as numbers; checksummed hexadecimal text orders the same way. */
  type Address = nat

  type AssetId = nat

  const ZERO_ADDRESS: Address := 0
  const ETH_TOKEN_ADDRESS: Address := 1

  datatype Counts = Counts(
    legacyDepositInitiated: nat,
    bridgehubDepositInitiated: nat,
    erc20BridgeDepositInitiated: nat,
    assetIdsResolved: nat,
    assetIdsSkippedNonL1Native: nat)

  function Leq(a: Address, b: Address): bool { a <= b }

  /** `Set.prototype.add` on the insertion-ordered elements of a set. */
  function AddTo<T(==)>(s: seq<T>, x: T): (r: seq<T>)
    ensures Distinct(s) ==> Distinct(r)
    ensures Elements(r) == Elements(s) + {x}
  {
    if x in s then s else s + [x]
  }

  function Remove(s: seq<Address>, x: Address): (r: seq<Address>)
    ensures Distinct(s) ==> Distinct(r)
    ensures Elements(r) == Elements(s) - {x}
  {
    if s == [] then []
    else
      var rest := Remove(s[1..], x);
      assert s == [s[0]] + s[1..];
      assert Elements(s) == {s[0]} + Elements(s[1..]);
      if s[0] == x then rest
      else
        assert Elements([s[0]] + rest) == {s[0]} + Elements(rest);
        assert Distinct(s) ==> s[0] !in s[1..];
        assert Distinct(s) ==> s[0] !in Elements(rest);
        [s[0]] + rest
  }

  /** The tokens the three sources name, without ETH. */
  ghost function TokenSet(legacy: seq<Address>, assets: seq<AssetId>, tokenAddress: AssetId -> Address, erc20: seq<Address>)
    : set<Address>
  {
    (Elements(legacy) + Resolved(Elements(assets), tokenAddress) + Elements(erc20)) - {ETH_TOKEN_ADDRESS}
  }

  ghost function Resolved(assets: set<AssetId>, tokenAddress: AssetId -> Address): set<Address> {
    set a | a in assets && tokenAddress(a) != ZERO_ADDRESS :: tokenAddress(a)
  }

  /** The assets with a token address on L1, and the others. */
  ghost function Native(assets: set<AssetId>, tokenAddress: AssetId -> Address, native: bool): set<AssetId> {
    set a | a in assets && (tokenAddress(a) != ZERO_ADDRESS <==> native)
  }

  /** The one ascending duplicate-free listing of a set. */
  ghost predicate Lists(tokens: seq<Address>, s: set<Address>) {
    Elements(tokens) == s && forall i, j :: 0 <= i < j < |tokens| ==> tokens[i] < tokens[j]
  }

  lemma ListingUnique(a: seq<Address>, b: seq<Address>, s: set<Address>)
    requires Lists(a, s) && Lists(b, s)
    ensures a == b
  {
    forall x ensures x in a <==> x in b {
      assert x in a <==> x in Elements(a);
      assert x in b <==> x in Elements(b);
    }
    SortedSetUnique(a, b, Leq);
  }

  method AddAll(tokens0: seq<Address>, logs: seq<Address>) returns (tokens: seq<Address>, count: nat)
    requires Distinct(tokens0)
    ensures Distinct(tokens) && Elements(tokens) == Elements(tokens0) + Elements(logs)
    ensures count == |logs|
  {
    tokens, count := tokens0, 0;
    for i := 0 to |logs|
      invariant Distinct(tokens) && Elements(tokens) == Elements(tokens0) + Elements(logs[..i])
      invariant count == i
    {
      ElementsSnoc(logs, i);
      tokens := AddTo(tokens, logs[i]);
      count := count + 1;
    }
    assert logs[..|logs|] == logs;
  }

  /** The tokens once the first `i` assets are resolved. */
  ghost function TokensAfter(tokens: set<Address>, assetIds: seq<AssetId>, tokenAddress: AssetId -> Address, i: nat): set<Address>
    requires i <= |assetIds|
  {
    tokens + Resolved(Elements(assetIds[..i]), tokenAddress)
  }

  ghost function NativeCount(assetIds: seq<AssetId>, tokenAddress: AssetId -> Address, native: bool, i: nat): nat
    requires i <= |assetIds|
  {
    |Native(Elements(assetIds[..i]), tokenAddress, native)|
  }

  /** One more asset. */
  lemma AssetStep(tokens: set<Address>, assetIds: seq<AssetId>, i: nat, tokenAddress: AssetId -> Address, native: bool)
    requires i < |assetIds| && Distinct(assetIds) && native == (tokenAddress(assetIds[i]) != ZERO_ADDRESS)
    ensures TokensAfter(tokens, assetIds, tokenAddress, i + 1) ==
      TokensAfter(tokens, assetIds, tokenAddress, i) + (if native then {tokenAddress(assetIds[i])} else {})
    ensures NativeCount(assetIds, tokenAddress, native, i + 1) == NativeCount(assetIds, tokenAddress, native, i) + 1
    ensures NativeCount(assetIds, tokenAddress, !native, i + 1) == NativeCount(assetIds, tokenAddress, !native, i)
  {
    ElementsSnoc(assetIds, i);
    assert assetIds[i] !in Elements(assetIds[..i]);
    NativeStep(Elements(assetIds[..i]), assetIds[i], tokenAddress);
    ResolvedStep(Elements(assetIds[..i]), assetIds[i], tokenAddress);
  }

  /** Resolving one asset; an asset without a token on this chain is skipped. */
  method ResolveAsset(tokens0: seq<Address>, assetIds: seq<AssetId>, i: nat, tokenAddress: AssetId -> Address, ghost start: set<Address>)
    returns (tokens: seq<Address>, native: bool)
    requires i < |assetIds| && Distinct(assetIds) && Distinct(tokens0) && Elements(tokens0) == TokensAfter(start, assetIds, tokenAddress, i)
    ensures Distinct(tokens) && Elements(tokens) == TokensAfter(start, assetIds, tokenAddress, i + 1)
    ensures NativeCount(assetIds, tokenAddress, native, i + 1) == NativeCount(assetIds, tokenAddress, native, i) + 1
    ensures NativeCount(assetIds, tokenAddress, !native, i + 1) == NativeCount(assetIds, tokenAddress, !native, i)
  {
    var address := tokenAddress(assetIds[i]);
    tokens, native := tokens0, address != ZERO_ADDRESS;
    AssetStep(start, assetIds, i, tokenAddress, native);
    if native {
      tokens := AddTo(tokens, address);
    }
  }

  /** Resolving each distinct asset id once. */
  method ResolveAll(tokens0: seq<Address>, assetIds: seq<AssetId>, tokenAddress: AssetId -> Address)
    returns (tokens: seq<Address>, resolved: nat, skipped: nat)
    requires Distinct(tokens0) && Distinct(assetIds)
    ensures Distinct(tokens) && Elements(tokens) == Elements(tokens0) + Resolved(Elements(assetIds), tokenAddress)
    ensures resolved == |Native(Elements(assetIds), tokenAddress, true)|
    ensures skipped == |Native(Elements(assetIds), tokenAddress, false)|
  {
    ghost var start := Elements(tokens0);
    NothingResolved(start, assetIds, tokenAddress);
    tokens, resolved, skipped := tokens0, 0, 0;
    for i := 0 to |assetIds|
      invariant Distinct(tokens) && Elements(tokens) == TokensAfter(start, assetIds, tokenAddress, i)
      invariant resolved == NativeCount(assetIds, tokenAddress, true, i)
      invariant skipped == NativeCount(assetIds, tokenAddress, false, i)
    {
      var native;
      tokens, native := ResolveAsset(tokens, assetIds, i, tokenAddress, start);
      if native {
        resolved := resolved + 1;
      } else {
        skipped := skipped + 1;
      }
    }
    AllResolved(start, assetIds, tokenAddress);
  }

  lemma AllResolved(tokens: set<Address>, assetIds: seq<AssetId>, tokenAddress: AssetId -> Address)
    ensures TokensAfter(tokens, assetIds, tokenAddress, |assetIds|) == tokens + Resolved(Elements(assetIds), tokenAddress)
    ensures forall native :: NativeCount(assetIds, tokenAddress, native, |assetIds|) == |Native(Elements(assetIds), tokenAddress, native)|
  {
    assert assetIds[..|assetIds|] == assetIds;
  }

  lemma NothingResolved(tokens: set<Address>, assetIds: seq<AssetId>, tokenAddress: AssetId -> Address)
    ensures TokensAfter(tokens, assetIds, tokenAddress, 0) == tokens
    ensures NativeCount(assetIds, tokenAddress, true, 0) == NativeCount(assetIds, tokenAddress, false, 0) == 0
  {
    assert Elements(assetIds[..0]) == {};
    assert Resolved({}, tokenAddress) == {} && Native({}, tokenAddress, true) == {} && Native({}, tokenAddress, false) == {};
  }

  lemma ResolvedStep(s: set<AssetId>, a: AssetId, tokenAddress: AssetId -> Address)
    ensures Resolved(s + {a}, tokenAddress) ==
      Resolved(s, tokenAddress) + if tokenAddress(a) == ZERO_ADDRESS then {} else {tokenAddress(a)}
  {
  }

  lemma NativeStep(s: set<AssetId>, a: AssetId, tokenAddress: AssetId -> Address)
    requires a !in s
    ensures var native := tokenAddress(a) != ZERO_ADDRESS;
      && |Native(s + {a}, tokenAddress, native)| == |Native(s, tokenAddress, native)| + 1
      && |Native(s + {a}, tokenAddress, !native)| == |Native(s, tokenAddress, !native)|
  {
    var native := tokenAddress(a) != ZERO_ADDRESS;
    assert Native(s + {a}, tokenAddress, native) == Native(s, tokenAddress, native) + {a};
    assert Native(s + {a}, tokenAddress, !native) == Native(s, tokenAddress, !native);
  }

  method SortTokens(found: seq<Address>) returns (tokens: seq<Address>)
    requires Distinct(found)
    ensures Lists(tokens, Elements(found))
  {
    tokens := Sort(found, Leq);
    SortSorted(found, Leq);
    SortDistinct(found, Leq);
  }

  /** Which tokens are listed. */
  lemma TokensNamed(tokens: seq<Address>, legacy: seq<Address>, assets: seq<AssetId>, tokenAddress: AssetId -> Address, erc20: seq<Address>)
    requires Lists(tokens, TokenSet(legacy, assets, tokenAddress, erc20))
    ensures forall t :: t in tokens <==>
      && t != ETH_TOKEN_ADDRESS
      && (t in legacy || t in erc20 || exists a :: a in assets && t == tokenAddress(a) != ZERO_ADDRESS)
  {
    forall t ensures t in Resolved(Elements(assets), tokenAddress) <==> exists a :: a in assets && t == tokenAddress(a) != ZERO_ADDRESS {
      if a :| a in assets && t == tokenAddress(a) != ZERO_ADDRESS {
        assert a in Elements(assets);
      }
    }
    assert forall t :: t in tokens <==> t in Elements(tokens);
  }

  method Collect(legacy: seq<Address>, assets: seq<AssetId>, tokenAddress: AssetId -> Address, erc20: Option<seq<Address>>)
    returns (tokens: seq<Address>, counts: Counts)
    ensures Lists(tokens, TokenSet(legacy, assets, tokenAddress, if erc20.Some? then erc20.value else []))
    ensures forall t :: t in tokens <==>
      && t != ETH_TOKEN_ADDRESS
      && (t in legacy || (erc20.Some? && t in erc20.value) || exists a :: a in assets && t == tokenAddress(a) != ZERO_ADDRESS)
    ensures counts.legacyDepositInitiated == |legacy| && counts.bridgehubDepositInitiated == |assets|
    ensures counts.erc20BridgeDepositInitiated == if erc20.Some? then |erc20.value| else 0
    ensures counts.assetIdsResolved == |Native(Elements(assets), tokenAddress, true)|
    ensures counts.assetIdsSkippedNonL1Native == |Native(Elements(assets), tokenAddress, false)|
  {
    var found, legacyCount := AddAll([], legacy);
    var assetIds, assetCount := AddAll([], assets);
    assert Elements(assetIds) == Elements(assets);
    var resolved, skipped;
    found, resolved, skipped := ResolveAll(found, assetIds, tokenAddress);
    var erc20Count := 0;
    if erc20.Some? {
      found, erc20Count := AddAll(found, erc20.value);
    }
    found := Remove(found, ETH_TOKEN_ADDRESS);
    assert Elements(found) == TokenSet(legacy, assets, tokenAddress, if erc20.Some? then erc20.value else []);
    tokens := SortTokens(found);
    counts := Counts(legacyCount, assetCount, erc20Count, resolved, skipped);
    TokensNamed(tokens, legacy, assets, tokenAddress, if erc20.Some? then erc20.value else []);
  }

  /**
   The whole discovery. Whenever it returns, the list is the one listing of the tokens named by the
   logs of the range: it does not depend on the block step or on which queries failed.
   */
  method Discover(
    legacyNode: Node<Address>, ghost legacyAt: int -> seq<Address>,
    assetNode: Node<AssetId>, ghost assetAt: int -> seq<AssetId>,
    erc20Node: Option<Node<Address>>, ghost erc20At: int -> seq<Address>,
    tokenAddress: AssetId -> Address, fromBlock: int, toBlock: int, blockStep: int)
    returns (r: Result<seq<Address>>)
    requires blockStep >= 1
    requires Truthful(legacyNode, legacyAt) && Truthful(assetNode, assetAt)
    requires erc20Node.Some? ==> Truthful(erc20Node.value, erc20At)
    ensures r.Err? <==>
      || fromBlock > toBlock
      || GivesUp(legacyNode, fromBlock, toBlock, blockStep)
      || GivesUp(assetNode, fromBlock, toBlock, blockStep)
      || (erc20Node.Some? && GivesUp(erc20Node.value, fromBlock, toBlock, blockStep))
    ensures r.Ok? ==> Lists(r.value, TokenSet(
      Range(legacyAt, fromBlock, toBlock), Range(assetAt, fromBlock, toBlock), tokenAddress,
      if erc20Node.Some? then Range(erc20At, fromBlock, toBlock) else []))
  {
    if fromBlock > toBlock {
      return Err("Invalid block range");
    }
    var legacy, _, _, _ := GetLogsPaginated(legacyNode, legacyAt, fromBlock, toBlock, blockStep);
    if legacy.Err? {
      return Err(legacy.error);
    }
    var assets, _, _, _ := GetLogsPaginated(assetNode, assetAt, fromBlock, toBlock, blockStep);
    if assets.Err? {
      return Err(assets.error);
    }
    var erc20: Option<seq<Address>> := None;
    if erc20Node.Some? {
      var logs, _, _, _ := GetLogsPaginated(erc20Node.value, erc20At, fromBlock, toBlock, blockStep);
      if logs.Err? {
        return Err(logs.error);
      }
      erc20 := Some(logs.value);
    }
    var tokens, _ := Collect(legacy.value, assets.value, tokenAddress, erc20);
    r := Ok(tokens);
  }
}
