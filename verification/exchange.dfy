/**
  The response-shaping helpers of the exchange client (`BybitClient`).

  The SDK itself is not modelled: every SDK call is replaced by its abstract
  outcome, a `Call<T>`, and the dictionaries it returns by records whose
  optional keys are `Option`s. A numeric text that Python's `float()` rejects
  is an `Option<real>` holding `None`; the `ValueError` it raises is caught by
  the same `except` clause as every other failure of the call.
*/
module Exchange {
  import opened Wrappers

  /** The outcome of one SDK call: it raised, or it returned a response.
      A Python-falsy response (`None`, `{}`) is `Returned(None)`. */
  datatype Call<T> = Raised | Returned(response: Option<T>)

  /* ---------------------------------------------------------------------
     get_klines
     --------------------------------------------------------------------- */

  datatype KlineResult<K> = KlineResult(list: Option<seq<K>>)
  datatype KlineBody<K> = KlineBody(result: Option<KlineResult<K>>)

  /** The call returned a response with `result.list`. */
  predicate HasKlineList<K>(call: Call<KlineBody<K>>)
  {
    && call.Returned?
    && call.response.Some?
    && call.response.value.result.Some?
    && call.response.value.result.value.list.Some?
  }

  /** The exchange's own list, newest candle first. */
  function KlineList<K>(call: Call<KlineBody<K>>): seq<K>
    requires HasKlineList(call)
  {
    call.response.value.result.value.list.value
  }

  /** Python's `s[::-1]`. */
  function Reverse<T>(s: seq<T>): (r: seq<T>)
    ensures |r| == |s|
    ensures forall i :: 0 <= i < |s| ==> r[i] == s[|s| - 1 - i]
  {
    if s == [] then [] else Reverse(s[1..]) + [s[0]]
  }

  lemma ReverseInvolutive<T>(s: seq<T>)
    ensures Reverse(Reverse(s)) == s
  {
    var r := Reverse(Reverse(s));
    assert forall i :: 0 <= i < |s| ==> r[i] == s[i];
  }

  /** The candles of the response, oldest first; `[]` on a failed call or a
      response without `result.list`. */
  function GetKlines<K>(call: Call<KlineBody<K>>): (candles: seq<K>)
    ensures HasKlineList(call) ==>
      && |candles| == |KlineList(call)|
      && forall i :: 0 <= i < |candles| ==> candles[i] == KlineList(call)[|candles| - 1 - i]
    ensures !HasKlineList(call) ==> candles == []
  {
    if HasKlineList(call) then Reverse(KlineList(call)) else []
  }

  /** Reversing the client's list gives back the exchange's newest-first list. */
  lemma GetKlinesRestoresExchangeOrder<K>(call: Call<KlineBody<K>>)
    requires HasKlineList(call)
    ensures Reverse(GetKlines(call)) == KlineList(call)
  {
    ReverseInvolutive(KlineList(call));
  }

  /* ---------------------------------------------------------------------
     place_order
     --------------------------------------------------------------------- */

  /** The parameters `place_order` sends to the SDK. */
  datatype OrderRequest = OrderRequest(
    category: string,
    symbol: string,
    side: string,
    orderType: string,
    qty: real,
    isLeverage: int,
    timeInForce: string)

  function OrderParams(symbol: string, side: string, qty: real, orderType: string := "Market"): OrderRequest
  {
    OrderRequest("linear", symbol, side, orderType, qty, 1, "GTC")
  }

  /** The response of the SDK's order call; `result` is the order record. */
  datatype OrderBody = OrderBody(result: Option<map<string, string>>)

  /** The success predicate of `place_order`: a response with a `result`
      record that carries an `orderId`. */
  predicate OrderAccepted(call: Call<OrderBody>)
  {
    && call.Returned?
    && call.response.Some?
    && call.response.value.result.Some?
    && "orderId" in call.response.value.result.value
  }

  /** One order submission: what was sent and what `place_order` returned. */
  datatype Placement = Placement(request: OrderRequest, result: Option<map<string, string>>)

  /** `place_order`, with the exchange given as the function from the request
      sent to the outcome of the SDK call. */
  function PlaceOrder(
    symbol: string, side: string, qty: real,
    exchange: OrderRequest -> Call<OrderBody>,
    orderType: string := "Market"): (p: Placement)
    ensures p.request == OrderParams(symbol, side, qty, orderType)
    ensures p.result.Some? <==> OrderAccepted(exchange(p.request))
    ensures p.result.Some? ==> "orderId" in p.result.value
    ensures p.result.Some? ==> p.result == exchange(p.request).response.value.result
  {
    var request := OrderParams(symbol, side, qty, orderType);
    var call := exchange(request);
    if OrderAccepted(call) then Placement(request, call.response.value.result)
    else Placement(request, None)
  }

  /* ---------------------------------------------------------------------
     get_wallet_balance
     --------------------------------------------------------------------- */

  /** One entry of an account's `coin` list. */
  datatype CoinBalance = CoinBalance(coin: string, walletBalance: Option<real>)

  /** One account; `coin` is `None` when the key is missing (a `KeyError`). */
  datatype Account = Account(coin: Option<seq<CoinBalance>>)

  datatype WalletResult = WalletResult(list: Option<seq<Account>>)
  datatype WalletBody = WalletBody(result: Option<WalletResult>)

  /** What the nested search ends with: a balance, no matching entry, or an
      exception (missing `coin` key, unparseable `walletBalance`). */
  datatype Scan = Found(balance: real) | NotFound | Fault

  /** The call returned a non-empty `result.list`. */
  predicate HasAccounts(call: Call<WalletBody>)
  {
    && call.Returned?
    && call.response.Some?
    && call.response.value.result.Some?
    && call.response.value.result.value.list.Some?
    && |call.response.value.result.value.list.value| > 0
  }

  function Accounts(call: Call<WalletBody>): seq<Account>
    requires HasAccounts(call)
  {
    call.response.value.result.value.list.value
  }

  /** The inner loop: the first entry for `coin` decides. */
  function ScanCoins(coins: seq<CoinBalance>, coin: string): Scan
  {
    if coins == [] then NotFound
    else if coins[0].coin == coin then
      (if coins[0].walletBalance.Some? then Found(coins[0].walletBalance.value) else Fault)
    else ScanCoins(coins[1..], coin)
  }

  /** The outer loop: accounts in order, each one's coins in order. */
  function ScanAccounts(accounts: seq<Account>, coin: string): Scan
  {
    if accounts == [] then NotFound
    else if accounts[0].coin.None? then Fault
    else
      var s := ScanCoins(accounts[0].coin.value, coin);
      if s.NotFound? then ScanAccounts(accounts[1..], coin) else s
  }

  /** Reference definition of `get_wallet_balance`: the balance found, else 0.0. */
  function WalletBalance(call: Call<WalletBody>, coin: string): real
  {
    if HasAccounts(call) && ScanAccounts(Accounts(call), coin).Found? then
      ScanAccounts(Accounts(call), coin).balance
    else 0.0
  }

  /** `get_wallet_balance`, as the two nested loops of the client. */
  method GetWalletBalance(call: Call<WalletBody>, coin: string := "USDT") returns (balance: real)
    ensures balance == WalletBalance(call, coin)
  {
    if !HasAccounts(call) {
      return 0.0;
    }
    var accounts := Accounts(call);
    var i := 0;
    while i < |accounts|
      invariant 0 <= i <= |accounts|
      invariant ScanAccounts(accounts, coin) == ScanAccounts(accounts[i..], coin)
    {
      assert accounts[i..][0] == accounts[i] && accounts[i..][1..] == accounts[i + 1..];
      if accounts[i].coin.None? {
        return 0.0;
      }
      var coins := accounts[i].coin.value;
      var j := 0;
      while j < |coins|
        invariant 0 <= j <= |coins|
        invariant ScanCoins(coins, coin) == ScanCoins(coins[j..], coin)
      {
        assert coins[j..][0] == coins[j] && coins[j..][1..] == coins[j + 1..];
        if coins[j].coin == coin {
          if coins[j].walletBalance.None? {
            return 0.0;
          }
          return coins[j].walletBalance.value;
        }
        j := j + 1;
      }
      i := i + 1;
    }
    return 0.0;
  }

  /** No entry of `coins` is for `coin`. */
  ghost predicate NoEntryFor(coins: seq<CoinBalance>, coin: string)
  {
    forall j :: 0 <= j < |coins| ==> coins[j].coin != coin
  }

  /** Entry `j` of account `i` is the first entry for `coin` the search meets:
      every earlier account has a coin list without it, and so does the part of
      account `i`'s list before `j`. */
  ghost predicate FirstMatch(accounts: seq<Account>, coin: string, i: int, j: int)
  {
    && 0 <= i < |accounts|
    && accounts[i].coin.Some?
    && 0 <= j < |accounts[i].coin.value|
    && accounts[i].coin.value[j].coin == coin
    && NoEntryFor(accounts[i].coin.value[..j], coin)
    && forall k :: 0 <= k < i ==> accounts[k].coin.Some? && NoEntryFor(accounts[k].coin.value, coin)
  }

  lemma {:induction false} ScanCoinsFound(coins: seq<CoinBalance>, coin: string)
    requires !ScanCoins(coins, coin).NotFound?
    ensures exists j ::
      && 0 <= j < |coins| && coins[j].coin == coin && NoEntryFor(coins[..j], coin)
      && (ScanCoins(coins, coin).Found? <==> coins[j].walletBalance.Some?)
      && (ScanCoins(coins, coin).Found? ==> coins[j].walletBalance == Some(ScanCoins(coins, coin).balance))
  {
    if coins[0].coin == coin {
      assert coins[..0] == [];
    } else {
      ScanCoinsFound(coins[1..], coin);
      var j :| 0 <= j < |coins[1..]| && coins[1..][j].coin == coin && NoEntryFor(coins[1..][..j], coin)
        && (ScanCoins(coins[1..], coin).Found? <==> coins[1..][j].walletBalance.Some?)
        && (ScanCoins(coins[1..], coin).Found? ==> coins[1..][j].walletBalance == Some(ScanCoins(coins[1..], coin).balance));
      assert coins[..j + 1] == [coins[0]] + coins[1..][..j];
    }
  }

  lemma {:induction false} ScanCoinsNotFound(coins: seq<CoinBalance>, coin: string)
    ensures ScanCoins(coins, coin).NotFound? <==> NoEntryFor(coins, coin)
  {
    if coins != [] {
      ScanCoinsNotFound(coins[1..], coin);
    }
  }

  /** A balance the search returns is the balance of the first entry for
      `coin` it meets; `ScanAccountsAtFirstMatch` is the converse. */
  lemma {:induction false} ScanAccountsFirstMatch(accounts: seq<Account>, coin: string)
    requires ScanAccounts(accounts, coin).Found?
    ensures exists i, j ::
      && FirstMatch(accounts, coin, i, j)
      && accounts[i].coin.value[j].walletBalance == Some(ScanAccounts(accounts, coin).balance)
  {
    var cs := accounts[0].coin.value;
    var s := ScanCoins(cs, coin);
    if s.NotFound? {
      ScanCoinsNotFound(cs, coin);
      ScanAccountsFirstMatch(accounts[1..], coin);
      var i, j :| FirstMatch(accounts[1..], coin, i, j)
        && accounts[1..][i].coin.value[j].walletBalance == Some(ScanAccounts(accounts[1..], coin).balance);
      assert FirstMatch(accounts, coin, i + 1, j);
    } else {
      ScanCoinsFound(cs, coin);
      var j :| 0 <= j < |cs| && cs[j].coin == coin && NoEntryFor(cs[..j], coin)
        && (s.Found? <==> cs[j].walletBalance.Some?)
        && (s.Found? ==> cs[j].walletBalance == Some(s.balance));
      assert FirstMatch(accounts, coin, 0, j);
    }
  }

  /** The first entry for `coin` in a coin list decides the inner search. */
  lemma {:induction false} ScanCoinsAtFirst(coins: seq<CoinBalance>, coin: string, j: int)
    requires 0 <= j < |coins| && coins[j].coin == coin && NoEntryFor(coins[..j], coin)
    ensures coins[j].walletBalance.Some? ==> ScanCoins(coins, coin) == Found(coins[j].walletBalance.value)
    ensures coins[j].walletBalance.None? ==> ScanCoins(coins, coin) == Fault
  {
    if j > 0 {
      assert coins[0] == coins[..j][0];
      assert coins[1..][..j - 1] == coins[..j][1..];
      ScanCoinsAtFirst(coins[1..], coin, j - 1);
    }
  }

  /** The converse of `ScanAccountsFirstMatch`: the first entry for `coin` the
      search meets decides it; a parseable balance is returned, an
      unparseable one is a fault. */
  lemma {:induction false} ScanAccountsAtFirstMatch(accounts: seq<Account>, coin: string, i: int, j: int)
    requires FirstMatch(accounts, coin, i, j)
    ensures accounts[i].coin.value[j].walletBalance.Some? ==>
      ScanAccounts(accounts, coin) == Found(accounts[i].coin.value[j].walletBalance.value)
    ensures accounts[i].coin.value[j].walletBalance.None? ==>
      ScanAccounts(accounts, coin) == Fault
  {
    if i == 0 {
      ScanCoinsAtFirst(accounts[0].coin.value, coin, j);
    } else {
      ScanCoinsNotFound(accounts[0].coin.value, coin);
      assert FirstMatch(accounts[1..], coin, i - 1, j);
      ScanAccountsAtFirstMatch(accounts[1..], coin, i - 1, j);
    }
  }

  /** `get_wallet_balance` returns the first matching entry's balance when it
      parses and 0.0 when it does not. */
  lemma WalletBalanceOfFirstMatch(call: Call<WalletBody>, coin: string, i: int, j: int)
    requires HasAccounts(call) && FirstMatch(Accounts(call), coin, i, j)
    ensures var b := Accounts(call)[i].coin.value[j].walletBalance;
      WalletBalance(call, coin) == (if b.Some? then b.value else 0.0)
  {
    ScanAccountsAtFirstMatch(Accounts(call), coin, i, j);
  }

  /** The search finds nothing exactly when every account has a coin list and
      none of them lists `coin`. */
  lemma {:induction false} ScanAccountsNotFound(accounts: seq<Account>, coin: string)
    ensures ScanAccounts(accounts, coin).NotFound? <==>
      forall k :: 0 <= k < |accounts| ==> accounts[k].coin.Some? && NoEntryFor(accounts[k].coin.value, coin)
  {
    if accounts != [] {
      ScanAccountsNotFound(accounts[1..], coin);
      if accounts[0].coin.Some? {
        ScanCoinsNotFound(accounts[0].coin.value, coin);
      }
      assert forall k :: 1 <= k < |accounts| ==> accounts[k] == accounts[1..][k - 1];
    }
  }

  /** The balance is 0.0 whenever the call fails, the list is missing or empty,
      or no account lists `coin`. */
  lemma WalletBalanceZeroCases(call: Call<WalletBody>, coin: string)
    requires !HasAccounts(call)
      || forall k :: 0 <= k < |Accounts(call)| ==>
           Accounts(call)[k].coin.Some? && NoEntryFor(Accounts(call)[k].coin.value, coin)
    ensures WalletBalance(call, coin) == 0.0
  {
    if HasAccounts(call) {
      ScanAccountsNotFound(Accounts(call), coin);
    }
  }

  /* ---------------------------------------------------------------------
     get_current_position
     --------------------------------------------------------------------- */

  /** One entry of the position list; `side` is `None` when the key is
      missing or null, which makes `capitalize()` raise. */
  datatype PositionEntry = PositionEntry(size: Option<real>, side: Option<string>, avgPrice: Option<real>)
  datatype PositionResult = PositionResult(list: Option<seq<PositionEntry>>)
  datatype PositionBody = PositionBody(retCode: int, result: Option<PositionResult>)

  /** The triple `(size, side, avg_entry_price)` the client returns. */
  datatype PositionSnapshot = PositionSnapshot(size: real, side: string, avgPrice: Option<real>)

  /** The triple returned for every outcome other than an open position. */
  const NoPosition := PositionSnapshot(0.0, "None", None)

  /** The call succeeded (`retCode == 0`) and listed at least one position. */
  predicate ListsPosition(call: Call<PositionBody>)
  {
    && call.Returned?
    && call.response.Some?
    && call.response.value.retCode == 0
    && call.response.value.result.Some?
    && call.response.value.result.value.list.Some?
    && |call.response.value.result.value.list.value| > 0
  }

  function FirstPosition(call: Call<PositionBody>): PositionEntry
    requires ListsPosition(call)
  {
    call.response.value.result.value.list.value[0]
  }

  /** The first listed position is open: its size and price parse, its side
      is present, and size > 0. */
  predicate OpenFirstPosition(call: Call<PositionBody>)
  {
    && ListsPosition(call)
    && FirstPosition(call).size.Some?
    && FirstPosition(call).side.Some?
    && FirstPosition(call).avgPrice.Some?
    && FirstPosition(call).size.value > 0.0
  }

  function GetCurrentPosition(call: Call<PositionBody>): (snap: PositionSnapshot)
    ensures snap.size > 0.0 <==> OpenFirstPosition(call)
    ensures OpenFirstPosition(call) ==>
      && snap.size == FirstPosition(call).size.value
      && snap.side == Capitalize(FirstPosition(call).side.value)
      && snap.avgPrice == FirstPosition(call).avgPrice
    ensures !OpenFirstPosition(call) ==> snap == NoPosition
  {
    if ListsPosition(call) then
      var p := FirstPosition(call);
      if p.size.None? || p.avgPrice.None? then NoPosition
      else if p.size.value > 0.0 then
        if p.side.None? then NoPosition
        else PositionSnapshot(p.size.value, Capitalize(p.side.value), p.avgPrice)
      else NoPosition
    else NoPosition
  }

  /** The snapshot invariant: size is never negative, a zero size always comes
      with side "None" and no price, and a positive size always has a price. */
  lemma SnapshotInvariant(call: Call<PositionBody>)
    ensures GetCurrentPosition(call).size >= 0.0
    ensures GetCurrentPosition(call).size == 0.0 ==>
      GetCurrentPosition(call).side == "None" && GetCurrentPosition(call).avgPrice.None?
    ensures GetCurrentPosition(call).size > 0.0 ==> GetCurrentPosition(call).avgPrice.Some?
  {
  }

  /* Python's `str.capitalize`, on ASCII letters. */

  function UpperChar(c: char): char
  {
    if 'a' <= c <= 'z' then (c as int - 32) as char else c
  }

  function LowerChar(c: char): char
  {
    if 'A' <= c <= 'Z' then (c as int + 32) as char else c
  }

  function Lower(s: string): (r: string)
    ensures |r| == |s|
    ensures forall i :: 0 <= i < |s| ==> r[i] == LowerChar(s[i])
  {
    if s == [] then [] else [LowerChar(s[0])] + Lower(s[1..])
  }

  /** First character upper-case, the rest lower-case. */
  function Capitalize(s: string): (r: string)
    ensures |r| == |s|
    ensures |s| > 0 ==> r[0] == UpperChar(s[0])
    ensures forall i :: 1 <= i < |s| ==> r[i] == LowerChar(s[i])
  {
    if s == [] then [] else [UpperChar(s[0])] + Lower(s[1..])
  }

  lemma CapitalizeIdempotent(s: string)
    ensures Capitalize(Capitalize(s)) == Capitalize(s)
  {
    var c := Capitalize(s);
    var cc := Capitalize(c);
    assert forall i :: 0 <= i < |s| ==> cc[i] == c[i];
  }

  lemma LowerCharAbsorbs(c: char)
    ensures LowerChar(UpperChar(c)) == LowerChar(c)
    ensures LowerChar(LowerChar(c)) == LowerChar(c)
  {
  }

  /** Capitalizing changes only the case: both spell the same lower-case word. */
  lemma LowerCapitalize(s: string)
    ensures Lower(Capitalize(s)) == Lower(s)
  {
    var c := Capitalize(s);
    var a := Lower(c);
    var b := Lower(s);
    forall i | 0 <= i < |s|
      ensures a[i] == b[i]
    {
      LowerCharAbsorbs(s[i]);
      assert a[i] == LowerChar(c[i]) && b[i] == LowerChar(s[i]);
      assert c[i] == (if i == 0 then UpperChar(s[i]) else LowerChar(s[i]));
    }
  }

  /* ---------------------------------------------------------------------
     close_position
     --------------------------------------------------------------------- */

  /** The order side that closes a position held on `side`, if `side` is one
      the client knows. */
  function CloseSide(side: string): (r: Option<string>)
    ensures r.Some? <==> side == "Buy" || side == "Sell"
    ensures r.Some? ==> r.value != side && (r.value == "Buy" || r.value == "Sell")
  {
    if side == "Buy" then Some("Sell")
    else if side == "Sell" then Some("Buy")
    else None
  }

  lemma CloseSideInvolutive(side: string)
    requires side == "Buy" || side == "Sell"
    ensures CloseSide(CloseSide(side).value) == Some(side)
  {
  }

  /** `close_position`: `None` when no order is placed (an unknown side);
      otherwise the market order it placed, whose `result` is what the client
      returns. */
  function ClosePosition(
    symbol: string, side: string, qty: real,
    exchange: OrderRequest -> Call<OrderBody>): (r: Option<Placement>)
    ensures r.None? <==> side != "Buy" && side != "Sell"
    ensures r.Some? ==>
      && r.value.request.symbol == symbol
      && r.value.request.qty == qty
      && r.value.request.orderType == "Market"
      && r.value.request.side == CloseSide(side).value
      && r.value.request == OrderParams(symbol, CloseSide(side).value, qty)
      && (r.value.result.Some? <==> OrderAccepted(exchange(r.value.request)))
      && (r.value.result.Some? ==> r.value.result == exchange(r.value.request).response.value.result)
  {
    match CloseSide(side)
    case None => None
    case Some(closing) => Some(PlaceOrder(symbol, closing, qty, exchange, orderType := "Market"))
  }
}
