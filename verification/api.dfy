/**
 * The balance endpoints' logic in `api.rs`: the native NEAR balance, the
 * fungible-token balances over every contract the account has touched, and
 * whether an account exists. Database queries and RPC calls are not part of
 * this model: their answers arrive as parameters (`Result` values, so that a
 * failing query propagates as `?` does) or through the `Rpc` collaborator.
 */
module Api {
  import opened Wrappers
  import opened Integers
  import opened Errors
  import opened Collaborators
  import opened Types

  /** `CoinInfo`: one balance line of the response. */
  datatype CoinInfo = CoinInfo(
    standard: string,
    contractAccountId: Option<string>,
    balance: U128,
    symbol: string,
    decimals: u8,
    icon: Option<string>)

  /** A row of the account-changes query: both amounts as decimal text. */
  datatype AccountChangesBalance = AccountChangesBalance(nonstaked: string, staked: string)

  /**
   * `rpc_calls::get_ft_balance(contract, account, height)` and
   * `rpc_calls::get_ft_metadata(contract, height)`: each may fail.
   */
  datatype Rpc = Rpc(
    ftBalance: (string, string, u64) -> Result<u128, Error>,
    ftMetadata: (string, u64) -> Result<FtMetadata, Error>)

  const NEAR_STANDARD := "nearprotocol"
  const NEAR_SYMBOL := "NEAR"
  const NEAR_DECIMALS: u8 := 24
  const FT_STANDARD := "nep141"
  const DELETE_ACCOUNT := "DELETE_ACCOUNT"

  function MissingBalanceError(accountId: string): Error {
    FromErrorKind(DBError("Could not find the data in account_changes table for account_id " + accountId))
  }

  // ---------------------------------------------------------------------------
  // native_balance

  /**
   * `native_balance` once its query has answered: a failed query is returned
   * as is; no row is a DB error naming the account; otherwise only the first
   * (the latest) row counts, its non-staked amount is converted first, then
   * its staked amount, and the coin's balance is their `u128` sum, which
   * wraps modulo 2^128.
   */
  function NativeBalance(u: Utils, accountId: string, fetched: Result<seq<AccountChangesBalance>, Error>)
    : (r: Result<seq<CoinInfo>, Error>)
    ensures fetched.Failure? ==> r == Failure(fetched.error)
    ensures fetched == Success([]) ==> r == Failure(MissingBalanceError(accountId))
    ensures fetched.Success? && fetched.value != [] ==>
              var row := fetched.value[0];
              && (u.toU128(row.nonstaked).Failure? ==> r == Failure(u.toU128(row.nonstaked).error))
              && (u.toU128(row.nonstaked).Success? && u.toU128(row.staked).Failure? ==>
                    r == Failure(u.toU128(row.staked).error))
              && (r.Success? <==> u.toU128(row.nonstaked).Success? && u.toU128(row.staked).Success?)
    ensures r.Success? ==>
              && fetched.Success? && fetched.value != []
              && |r.value| == 1
              && var coin := r.value[0];
              && coin.standard == NEAR_STANDARD && coin.symbol == NEAR_SYMBOL && coin.decimals == NEAR_DECIMALS
              && coin.contractAccountId == None && coin.icon == None
              && var total := u.toU128(fetched.value[0].nonstaked).value + u.toU128(fetched.value[0].staked).value;
              && coin.balance.value == total % TWO_128
              && (total < TWO_128 ==> coin.balance.value == total)
  {
    match fetched
    case Failure(e) => Failure(e)
    case Success(rows) =>
      if rows == [] then Failure(MissingBalanceError(accountId))
      else
        match u.toU128(rows[0].nonstaked)
        case Failure(e) => Failure(e)
        case Success(nonstaked) =>
          match u.toU128(rows[0].staked)
          case Failure(e) => Failure(e)
          case Success(staked) =>
            Success([CoinInfo(NEAR_STANDARD, None, U128(AddU128(nonstaked, staked)), NEAR_SYMBOL, NEAR_DECIMALS, None)])
  }

  /** Only the latest row counts: the rows after the first never change the answer. */
  lemma NativeBalanceLatestRow(u: Utils, accountId: string, rows: seq<AccountChangesBalance>, older: seq<AccountChangesBalance>)
    requires rows != []
    ensures NativeBalance(u, accountId, Success(rows + older)) == NativeBalance(u, accountId, Success([rows[0]]))
  {
    assert (rows + older)[0] == rows[0];
  }

  // ---------------------------------------------------------------------------
  // account_exists

  /**
   * `account_exists` once its query has answered with the latest successful
   * action kinds, newest first: a failed query is returned as is; the
   * account exists exactly when there is such an action and the latest is
   * not a deletion.
   */
  function AccountExists(fetched: Result<seq<string>, Error>): (r: Result<bool, Error>)
    ensures fetched.Failure? <==> r.Failure?
    ensures fetched.Failure? ==> r.error == fetched.error
    ensures r.Success? ==> (r.value <==> (fetched.value != [] && fetched.value[0] != DELETE_ACCOUNT))
  {
    match fetched
    case Failure(e) => Failure(e)
    case Success(kinds) => Success(if kinds == [] then false else kinds[0] != DELETE_ACCOUNT)
  }

  /**
   * Only the latest action decides: an account without actions does not
   * exist, and whatever came before, a latest deletion means it does not
   * exist while any other latest action means it does.
   */
  lemma AccountExistsLatest(latest: string, older: seq<string>)
    ensures AccountExists(Success([])) == Success(false)
    ensures AccountExists(Success([latest] + older)) == Success(latest != DELETE_ACCOUNT)
  {
  }

  // ---------------------------------------------------------------------------
  // ft_balance_for_contract

  /**
   * `ft_balance_for_contract`: the account's balance at the block's height is
   * asked first, then the contract's metadata; the first failure is
   * returned. The coin is a NEP-141 one naming the contract, with the
   * balance asked for and the symbol, decimals and icon of the metadata.
   */
  function FtBalanceForContract(rpc: Rpc, block: Block, contractId: string, accountId: string)
    : (r: Result<CoinInfo, Error>)
    ensures var balance := rpc.ftBalance(contractId, accountId, block.height);
            var metadata := rpc.ftMetadata(contractId, block.height);
            && (balance.Failure? ==> r == Failure(balance.error))
            && (balance.Success? && metadata.Failure? ==> r == Failure(metadata.error))
            && (r.Success? <==> balance.Success? && metadata.Success?)
            && (r.Success? ==>
                  && r.value.standard == FT_STANDARD
                  && r.value.contractAccountId == Some(contractId)
                  && r.value.balance.value == balance.value
                  && r.value.symbol == metadata.value.symbol
                  && r.value.decimals == metadata.value.decimals
                  && r.value.icon == metadata.value.icon)
  {
    match rpc.ftBalance(contractId, accountId, block.height)
    case Failure(e) => Failure(e)
    case Success(balance) =>
      match rpc.ftMetadata(contractId, block.height)
      case Failure(e) => Failure(e)
      case Success(metadata) =>
        Success(CoinInfo(FT_STANDARD, Some(contractId), U128From(balance), metadata.symbol, metadata.decimals, metadata.icon))
  }

  // ---------------------------------------------------------------------------
  // ft_balance

  /** The contract ids that `AccountId::from_str` accepts, in their order. */
  function ValidContracts(ids: AccountIds, contracts: seq<string>): (v: seq<string>)
    ensures |v| <= |contracts|
    ensures forall c :: c in v <==> c in contracts && ids.valid(c)
  {
    if contracts == [] then []
    else if ids.valid(contracts[0]) then [contracts[0]] + ValidContracts(ids, contracts[1..])
    else ValidContracts(ids, contracts[1..])
  }

  /**
   * What the loop of `ft_balance` computes over the contract ids: ids that
   * are not account ids are skipped, the others are asked in order, and the
   * first failure ends it.
   */
  function FtBalances(rpc: Rpc, ids: AccountIds, block: Block, accountId: string, contracts: seq<string>)
    : Result<seq<CoinInfo>, Error>
  {
    if contracts == [] then Success([])
    else if !ids.valid(contracts[0]) then FtBalances(rpc, ids, block, accountId, contracts[1..])
    else
      match FtBalanceForContract(rpc, block, contracts[0], accountId)
      case Failure(e) => Failure(e)
      case Success(coin) => Prepend([coin], FtBalances(rpc, ids, block, accountId, contracts[1..]))
  }

  /**
   * `ft_balance` once the query for the contracts the account has touched
   * has answered: a failed query is returned as is; otherwise each contract
   * id that is an account id is asked for the account's coin, and the first
   * failure is returned.
   */
  method FtBalance(rpc: Rpc, ids: AccountIds, block: Block, accountId: string, fetched: Result<seq<string>, Error>)
    returns (r: Result<seq<CoinInfo>, Error>)
    ensures fetched.Failure? ==> r == Failure(fetched.error)
    ensures fetched.Success? ==> r == FtBalances(rpc, ids, block, accountId, fetched.value)
  {
    if fetched.Failure? {
      return Failure(fetched.error);
    }
    var contracts := fetched.value;
    var balances: seq<CoinInfo> := [];
    var i := 0;
    assert contracts[i..] == contracts;
    assert Prepend(balances, FtBalances(rpc, ids, block, accountId, contracts))
        == FtBalances(rpc, ids, block, accountId, contracts) by {
      if FtBalances(rpc, ids, block, accountId, contracts).Success? {
        assert balances + FtBalances(rpc, ids, block, accountId, contracts).value
            == FtBalances(rpc, ids, block, accountId, contracts).value;
      }
    }
    while i < |contracts|
      invariant 0 <= i <= |contracts|
      invariant FtBalances(rpc, ids, block, accountId, contracts)
             == Prepend(balances, FtBalances(rpc, ids, block, accountId, contracts[i..]))
    {
      var contract := contracts[i];
      assert contracts[i..][1..] == contracts[i + 1..];
      if ids.valid(contract) {
        var coin := FtBalanceForContract(rpc, block, contract, accountId);
        if coin.Failure? {
          return Failure(coin.error);
        }
        PrependTwice(balances, [coin.value], FtBalances(rpc, ids, block, accountId, contracts[i + 1..]));
        balances := balances + [coin.value];
      }
      i := i + 1;
    }
    assert balances + [] == balances;
    return Success(balances);
  }

  /**
   * The coins are those of the valid contract ids, one each and in order:
   * coin k is what `ft_balance_for_contract` answers for the k-th valid id.
   */
  lemma {:induction false} FtBalancesCoins(rpc: Rpc, ids: AccountIds, block: Block, accountId: string,
                                           contracts: seq<string>, coins: seq<CoinInfo>)
    requires FtBalances(rpc, ids, block, accountId, contracts) == Success(coins)
    ensures |coins| == |ValidContracts(ids, contracts)|
    ensures forall k :: 0 <= k < |coins| ==>
              FtBalanceForContract(rpc, block, ValidContracts(ids, contracts)[k], accountId) == Success(coins[k])
  {
    FtBalancesLength(rpc, ids, block, accountId, contracts, coins);
    forall k | 0 <= k < |coins|
      ensures FtBalanceForContract(rpc, block, ValidContracts(ids, contracts)[k], accountId) == Success(coins[k])
    {
      FtBalancesCoinAt(rpc, ids, block, accountId, contracts, coins, k);
    }
  }

  lemma {:induction false} FtBalancesLength(rpc: Rpc, ids: AccountIds, block: Block, accountId: string,
                                            contracts: seq<string>, coins: seq<CoinInfo>)
    requires FtBalances(rpc, ids, block, accountId, contracts) == Success(coins)
    ensures |coins| == |ValidContracts(ids, contracts)|
  {
    if contracts != [] {
      var rest := contracts[1..];
      if !ids.valid(contracts[0]) {
        FtBalancesLength(rpc, ids, block, accountId, rest, coins);
      } else {
        var tail := FtBalances(rpc, ids, block, accountId, rest).value;
        assert coins == [coins[0]] + tail;
        FtBalancesLength(rpc, ids, block, accountId, rest, tail);
      }
    }
  }

  lemma {:induction false} FtBalancesCoinAt(rpc: Rpc, ids: AccountIds, block: Block, accountId: string,
                                            contracts: seq<string>, coins: seq<CoinInfo>, k: nat)
    requires FtBalances(rpc, ids, block, accountId, contracts) == Success(coins)
    requires k < |coins| == |ValidContracts(ids, contracts)|
    ensures FtBalanceForContract(rpc, block, ValidContracts(ids, contracts)[k], accountId) == Success(coins[k])
    decreases |contracts|
  {
    var rest := contracts[1..];
    var v := ValidContracts(ids, contracts);
    if !ids.valid(contracts[0]) {
      assert v == ValidContracts(ids, rest);
      FtBalancesCoinAt(rpc, ids, block, accountId, rest, coins, k);
    } else if k > 0 {
      var tail := FtBalances(rpc, ids, block, accountId, rest).value;
      assert coins == [coins[0]] + tail;
      assert v == [contracts[0]] + ValidContracts(ids, rest);
      assert v[k] == ValidContracts(ids, rest)[k - 1] && coins[k] == tail[k - 1];
      FtBalancesCoinAt(rpc, ids, block, accountId, rest, tail, k - 1);
    } else {
      assert v[0] == contracts[0];
    }
  }

  /** The loop succeeds exactly when every valid contract id's coin can be had. */
  lemma {:induction false} FtBalancesSucceeds(rpc: Rpc, ids: AccountIds, block: Block, accountId: string,
                                              contracts: seq<string>)
    ensures FtBalances(rpc, ids, block, accountId, contracts).Success?
        <==> forall c :: c in ValidContracts(ids, contracts) ==> FtBalanceForContract(rpc, block, c, accountId).Success?
  {
    if contracts != [] {
      var rest := contracts[1..];
      FtBalancesSucceeds(rpc, ids, block, accountId, rest);
      if ids.valid(contracts[0]) {
        assert ValidContracts(ids, contracts) == [contracts[0]] + ValidContracts(ids, rest);
      }
    }
  }

  /**
   * A failure is the error of the first valid contract id whose coin cannot
   * be had; every valid id before it was answered.
   */
  lemma {:induction false} FtBalancesFirstFailure(rpc: Rpc, ids: AccountIds, block: Block, accountId: string,
                                                  contracts: seq<string>)
    requires FtBalances(rpc, ids, block, accountId, contracts).Failure?
    ensures var v := ValidContracts(ids, contracts);
            exists k :: 0 <= k < |v|
              && FtBalanceForContract(rpc, block, v[k], accountId)
                 == Failure(FtBalances(rpc, ids, block, accountId, contracts).error)
              && forall j :: 0 <= j < k ==> FtBalanceForContract(rpc, block, v[j], accountId).Success?
  {
    var rest := contracts[1..];
    var v := ValidContracts(ids, contracts);
    var e := FtBalances(rpc, ids, block, accountId, contracts).error;
    if !ids.valid(contracts[0]) {
      assert v == ValidContracts(ids, rest);
      assert FtBalances(rpc, ids, block, accountId, rest).error == e;
      FtBalancesFirstFailure(rpc, ids, block, accountId, rest);
      var k :| 0 <= k < |v|
        && FtBalanceForContract(rpc, block, v[k], accountId) == Failure(e)
        && forall j :: 0 <= j < k ==> FtBalanceForContract(rpc, block, v[j], accountId).Success?;
      assert ValidContracts(ids, contracts)[k] == v[k];
    } else {
      assert v == [contracts[0]] + ValidContracts(ids, rest);
      if FtBalanceForContract(rpc, block, contracts[0], accountId).Failure? {
        assert FtBalanceForContract(rpc, block, v[0], accountId) == Failure(e);
      } else {
        FtBalancesFirstFailure(rpc, ids, block, accountId, rest);
        var w := ValidContracts(ids, rest);
        var k :| 0 <= k < |w|
          && FtBalanceForContract(rpc, block, w[k], accountId) == Failure(e)
          && forall j :: 0 <= j < k ==> FtBalanceForContract(rpc, block, w[j], accountId).Success?;
        assert v[k + 1] == w[k];
        forall j | 0 <= j < k + 1
          ensures FtBalanceForContract(rpc, block, v[j], accountId).Success?
        {
          if j > 0 {
            assert v[j] == w[j - 1];
          }
        }
      }
    }
  }

  /** Filtering keeps distinct ids distinct. */
  lemma {:induction false} ValidContractsDistinct(ids: AccountIds, contracts: seq<string>)
    requires forall i, j :: 0 <= i < j < |contracts| ==> contracts[i] != contracts[j]
    ensures forall i, j :: 0 <= i < j < |ValidContracts(ids, contracts)| ==>
              ValidContracts(ids, contracts)[i] != ValidContracts(ids, contracts)[j]
  {
    if contracts != [] {
      var rest := contracts[1..];
      forall i, j | 0 <= i < j < |rest|
        ensures rest[i] != rest[j]
      {
        assert rest[i] == contracts[i + 1] && rest[j] == contracts[j + 1];
      }
      ValidContractsDistinct(ids, rest);
      var v := ValidContracts(ids, contracts);
      var w := ValidContracts(ids, rest);
      if ids.valid(contracts[0]) {
        assert v == [contracts[0]] + w;
        forall i, j | 0 <= i < j < |v|
          ensures v[i] != v[j]
        {
          assert v[j] == w[j - 1];
          if i == 0 {
            assert w[j - 1] in w;
            var m :| 0 <= m < |rest| && rest[m] == w[j - 1];
            assert rest[m] == contracts[m + 1];
          } else {
            assert v[i] == w[i - 1];
          }
        }
      } else {
        assert v == w;
      }
    }
  }

  /**
   * The contract query selects distinct ids, so the coins name distinct
   * contracts: no token is listed twice.
   */
  lemma FtBalancesDistinct(rpc: Rpc, ids: AccountIds, block: Block, accountId: string,
                           contracts: seq<string>, coins: seq<CoinInfo>)
    requires FtBalances(rpc, ids, block, accountId, contracts) == Success(coins)
    requires forall i, j :: 0 <= i < j < |contracts| ==> contracts[i] != contracts[j]
    ensures forall i, j :: 0 <= i < j < |coins| ==> coins[i].contractAccountId != coins[j].contractAccountId
  {
    FtBalancesCoins(rpc, ids, block, accountId, contracts, coins);
    ValidContractsDistinct(ids, contracts);
    var v := ValidContracts(ids, contracts);
    forall i, j | 0 <= i < j < |coins|
      ensures coins[i].contractAccountId != coins[j].contractAccountId
    {
      assert coins[i].contractAccountId == Some(v[i]);
      assert coins[j].contractAccountId == Some(v[j]);
    }
  }
}
