# Single-symbol futures bot: decision tick, exchange client helpers, trade ledger

This Dafny project models the core of a polling trading bot for one perpetual-futures symbol.

Each tick, the bot's main loop does the following:
- it fetches recent candles and takes the close of the latest one as the current price;
- it reads the held position (size, side, average entry price) and the wallet balance;
- it reconciles a BUY/SELL/HOLD signal with that position, which means opening a position, flipping one (close it, then open the other side) or doing nothing;
- it appends a row to a CSV trade ledger for each close it asks for, and for each open whose order reply is non-empty.

The model has six modules:

- `Wrappers` (`wrappers.dfy`): `Option`, which stands for Python's `None`, and the dictionary `get`.
- `Exchange` (`exchange.dfy`): the response-shaping helpers of `BybitClient`. It covers:
  - the kline list reversal and the empty fallback;
  - the `place_order` success predicate and the order parameters it sends;
  - the first-match wallet-balance search;
  - position-snapshot normalisation, including `str.capitalize`;
  - the side mapping of `close_position`.

  Each SDK call is replaced by its abstract outcome, `Call<T> = Raised | Returned(Option<T>)`. A falsy response is `Returned(None)`. Optional dictionary keys are `Option` fields. A numeric text that `float()` rejects is an `Option<real>` holding `None`; it raises inside the client's `try`, so it takes the same fallback path as a failed call. The order call is a function parameter from the request sent to its outcome.
- `Ledger` (`ledger.dfy`): the trade log. The file is `Missing` or holds a sequence of ten-cell rows. `initialize_trade_log` writes the header only when the file is missing. `log_trade` appends one row, in header order, using the same argument defaults as the source.
- `Candles` (`candles.dfy`): candles as (start time, close) pairs. They are sorted by time, and the current price is the close of the last candle after sorting.
- `Reconciler` (`reconciler.dfy`): the BUY/SELL/HOLD branch as a pure function `Decide`. It returns the ordered trace of effects: `PlaceOrder`, `ClosePosition` and `LogTrade` rows. Inputs:
  - the signal string;
  - the optional position record, with the loop's defaults applied;
  - the symbol, quantity, price and balance;
  - the reply of the single `place_order` call.

  `Tick` adds the abort on an empty candle list and the current-price rule.
- `Composition` (`composition.dfy`): lemmas that feed the client's results into the loop as written.

Two mismatches between the loop and the client are kept as written and exposed by lemmas:

- The loop compares the held side with "Short" and "Long" (`main.py:71,101`). The client reports "Buy"/"Sell" (`services/bybit_client.py:116`).
  - `Composition.ExchangeSidesNeverFlip` shows that a held position reported with the client's sides is never closed or flipped.
  - `Composition.LoopClosesAreRejected` shows that every close the loop asks for is refused by `close_position`, which places no order. The CLOSE_POSITION row is still logged.
- The loop calls `get_position_info` (`main.py:53`), which `BybitClient` does not define. The client's method is `get_current_position`, and it returns a triple, not a record. The model therefore takes the loop's position record as an input. `Composition.AsPositionInfo` reads the client's triple as such a record so that the lemmas above can be stated. It models no source line: indexing the client's actual tuple with `'size'` would raise `TypeError`.

The model also keeps these behaviours of the loop as written:
- The CLOSE_POSITION row is logged whether or not the close succeeded (`main.py:78-80`, `main.py:108-110`).
- The new order is placed after a fixed pause, without confirming the close (`main.py:83-86`).
- The held side is an arbitrary string compared with "Short" and "Long" (`main.py:71`, `main.py:101`).
- Every row goes to one static file, `data/trade_log.csv` (`config.py:20`).

## Model

| member | source | states |
|---|---|---|
| Exchange.GetKlines | services/bybit_client.py:33-49 | with `result.list` present, the candles are that list in reverse (oldest first), element by element; a raised call, a falsy response or a missing `result`/`list` gives `[]` |
| Exchange.GetKlinesRestoresExchangeOrder | services/bybit_client.py:40-43 | reversing the client's list gives back the exchange's newest-first list |
| Exchange.PlaceOrder | services/bybit_client.py:51-77 | sends category linear, the symbol/side/qty, Market by default, isLeverage 1, GTC; returns the `result` record iff the call returned a response whose `result` has an `orderId`, else None |
| Exchange.GetWalletBalance | services/bybit_client.py:79-98 | the coin defaults to "USDT"; the nested loops over accounts and their coins compute the reference search: the first entry for the coin decides, 0.0 on failure, empty list, no match, or an exception |
| Exchange.ScanAccountsFirstMatch | services/bybit_client.py:89-94 | a found balance is the `walletBalance` of the first matching entry in account-then-coin order: every earlier account has a coin list without the coin |
| Exchange.ScanAccountsAtFirstMatch | services/bybit_client.py:89-94 | conversely, the first matching entry decides the search: its balance is returned when it parses, and an unparseable one is a fault |
| Exchange.WalletBalanceOfFirstMatch | services/bybit_client.py:89-98 | `get_wallet_balance` returns the first matching entry's balance when it parses and 0.0 when it does not |
| Exchange.ScanAccountsNotFound | services/bybit_client.py:91-95 | the search finds nothing exactly when every account has a coin list and none lists the coin |
| Exchange.WalletBalanceZeroCases | services/bybit_client.py:89-98 | a failed call, a missing or empty list, or no matching coin yields 0.0 |
| Exchange.GetCurrentPosition | services/bybit_client.py:100-130 | returns (size, capitalized side, avgPrice) of the first listed position exactly when retCode is 0, the list is non-empty, size and price parse, the side is present and size > 0; every other outcome, including a missing or null side that makes `capitalize()` raise, is (0.0, "None", None) |
| Exchange.SnapshotInvariant | services/bybit_client.py:119-130 | size is never negative; size 0 implies side "None" and no price; a positive size always has a price |
| Exchange.CapitalizeIdempotent | services/bybit_client.py:116 | capitalizing a capitalized side changes nothing |
| Exchange.LowerCapitalize | services/bybit_client.py:116 | capitalizing changes only the letter case of the side |
| Exchange.CloseSide | services/bybit_client.py:145-152 | "Buy" and "Sell" map to the other of the two; every other side has no closing side |
| Exchange.CloseSideInvolutive | services/bybit_client.py:145-149 | the closing side of the closing side is the held side |
| Exchange.ClosePosition | services/bybit_client.py:133-157 | for "Buy"/"Sell" sends `place_order`'s request (linear, Market, isLeverage 1, GTC) on the opposite side for the same symbol and qty, and returns the exchange's `result` record exactly when the order was accepted; any other side places no order and returns None |
| Ledger.HeaderRow | services/trade_logger.py:17-20 | the header has exactly the ten columns Timestamp, Symbol, Action, Side, Quantity, Price, PNL, BalanceAfterTrade, OrderID, Status, in that order |
| Ledger.TradeRow | services/trade_logger.py:38-41 | a logged row has ten cells and cell k is the entry's value for header column k; None arguments become blank cells |
| Ledger.InitializeTradeLog | services/trade_logger.py:7-21 | a missing log becomes a log holding only the header; an existing log is left unchanged |
| Ledger.InitializeIdempotent | services/trade_logger.py:12-20 | initializing twice is the same as initializing once |
| Ledger.LogTrade | services/trade_logger.py:23-41 | appends exactly one row, the entry's row, and keeps every earlier row unchanged |
| Ledger.OmittedArgumentsDefault | services/trade_logger.py:23 | a call that omits the optional arguments writes blank PNL, BalanceAfterTrade, OrderID and an empty Status |
| Ledger.LogAll | services/trade_logger.py:36-41 | successive calls append their rows in order after the untouched earlier rows |
| Ledger.HeaderStaysFirst | services/trade_logger.py:12-41 | a log that was missing before initialization keeps the header as its first row whatever is logged afterwards |
| Candles.SortByTime | main.py:44 | the result is in ascending start-time order and is a permutation of the candles |
| Candles.CurrentPrice | main.py:44-49 | the price is the close of a candle with the latest start time |
| Candles.CurrentPriceOfLatest | main.py:44-49 | with distinct start times, the price is the close of the latest candle |
| Candles.CurrentPriceOfSorted | main.py:44-49 | for candles in strictly increasing time order, the price is the close of the last one |
| Reconciler.ReadPosition | main.py:54-56 | a missing record defaults to size 0.0, side None, entry None; a present one is read as is; side and entry are present together, and a non-zero size implies a side |
| Reconciler.Decide | main.py:63-124 | any signal but BUY/SELL gives an empty trace; otherwise each row follows the call it records, a close comes first and only for the flipped side ("Short" for BUY, "Long" for SELL), at most one order is placed, for the configured symbol and quantity and on the signal's side, and every OPEN row cites the acknowledged reply's orderId |
| Reconciler.OpensWhenFlat | main.py:63-100 | with size 0 (whatever the side string) BUY/SELL place exactly one order for the configured quantity, followed by an OPEN_POSITION "SUBMITTED" row iff the reply is non-empty |
| Reconciler.FlipsOpposite | main.py:71-119 | a non-zero "Short" under BUY (or "Long" under SELL) gives close, a CLOSE_POSITION row with the estimated PnL and status "CLOSED SHORT"/"CLOSED LONG", the order, then an OPEN row iff the reply is non-empty |
| Reconciler.HoldsWhenAligned | main.py:90-121 | a non-zero position whose side is not the flipped one gives no order and no row |
| Reconciler.ReplyOnlyAddsOpenRow | main.py:78-89 | the trace for any reply is the trace for a failed order plus the OPEN_POSITION row when the reply is non-empty, so the CLOSE_POSITION row is written whatever the close or the order returns |
| Reconciler.OpenRowIffAcknowledged | main.py:67-70 | a trace holds an OPEN_POSITION row exactly when it is non-empty and the reply is non-empty |
| Reconciler.PnlSigns | main.py:77-107 | a closed short gains iff the price fell below entry, a closed long iff it rose above; the two estimates are opposite |
| Reconciler.ShortFlipExample | main.py:75-80 | closing a 0.001 short entered at 30000 at price 29000 logs PnL 1.0 |
| Reconciler.Tick | main.py:27-49 | no candles aborts the tick with no effects; otherwise the price is the close of a latest candle and the effects are the decision's |
| Reconciler.RecordTrace | main.py:69-119 | writing a tick's rows to the log keeps the earlier rows and appends the trace's rows, one per `log_trade` effect, in trace order |
| Reconciler.LoggedEntriesAppend | main.py:69-119 | the rows of two consecutive parts of a trace are the rows of the first part followed by those of the second |
| Composition.HeldPositionActsOnlyOnShortOrLong | main.py:53-101 | a held position from the client is acted on only if the exchange spelt its side as a casing of "short" or "long" |
| Composition.ExchangeSidesNeverFlip | services/bybit_client.py:110-120 | with the exchange's "Buy"/"Sell" sides, the loop never closes or flips a held position |
| Composition.LoopClosesAreRejected | services/bybit_client.py:145-152 | every close the loop asks for names a side the client rejects, so no closing order is placed |
| Composition.OpenRowCarriesExchangeOrderId | main.py:67-70 | an OPEN_POSITION row written from the client's reply means the exchange accepted the order and carries its orderId |
| Composition.ClientRepliesAcknowledged | services/bybit_client.py:72-74 | a reply from the client's place_order passes the loop's truthiness test iff it is not None |
| Composition.NoKlinesNoTrade | main.py:27-32 | a failed or malformed candle fetch, or an empty list, aborts the tick before any order |
| Composition.PriceIsNewestExchangeClose | services/bybit_client.py:40-43 | with the exchange's list strictly newest first, the tick's price is the close of the list's first candle |

## Left out

- SDK session, network calls and `.env` credential loading (`services/bybit_client.py:3-24`): these are foreign calls; only their abstract outcomes are modelled.
- The endless loop, the `time.sleep` waits (including the settle delay between close and open) and the catch-all exception handler of the main loop: these are timing and orchestration only.
- The `AttributeError` that `main.py:53` raises each tick, because the client has no `get_position_info`: the position record is an input instead, so the decision can be stated at all.
- DataFrame construction, float casts and datetime conversion: a candle is reduced to its start time and close. The order among equal start times is unspecified in the source. The model's sort keeps such candles in input order. `Candles.CurrentPrice` holds whatever order a sort gives them. `Candles.CurrentPriceOfSorted` and `Composition.PriceIsNewestExchangeClose` assume distinct start times.
- The strategy module that computes the signal is not part of this model: the signal is an input string.
- Floating point: prices, sizes and PnL are exact reals. The `str(qty)` formatting, prints and f-strings are left out.
- File-system details: `os.path.exists`, `os.makedirs`, CSV quoting, and the failure of `log_trade` when the directory is missing. The timestamp from `datetime.now()` is a parameter.
- Configuration constants (`SYMBOL`, `TRADE_QUANTITY`, the interval and periods) are parameters; the `limit` and `interval` of the kline request only reach the SDK.
- Exchange.Capitalize: models `str.capitalize` on ASCII letters only; Python also case-maps other Unicode letters.
- Exchange.GetWalletBalance: a coin entry lacking its `coin` key, which raises `KeyError` in the source, is not represented; a missing `coin` list on an account and an unparseable balance are.
- Exchange.GetCurrentPosition: a response lacking `retCode` is not represented separately; in the source it raises and returns the same default triple.
