/**
  How the main loop and the exchange client fit together.

  The loop reads its position through a `get_position_info` method the client
  does not define; the client's own `get_current_position` returns a triple
  whose side is "Buy" or "Sell". The lemmas here feed the client's results
  into the loop as written and state what follows, without assuming that the
  two agree.
*/
module Composition {
  import opened Wrappers
  import Exchange
  import Candles
  import Reconciler

  /** The client's triple, read as the position record the loop indexes
      (`size`, `side`, `avgPrice`); a triple without a price reads as no
      record. */
  function AsPositionInfo(snap: Exchange.PositionSnapshot): (info: Option<Reconciler.PositionInfo>)
    ensures info.Some? <==> snap.avgPrice.Some?
    ensures info.Some? ==> info.value.size == snap.size && info.value.side == snap.side
  {
    match snap.avgPrice
    case None => None
    case Some(p) => Some(Reconciler.PositionInfo(snap.size, snap.side, p))
  }

  /** A held position reported by the client is only ever closed or flipped
      when the exchange spelt its side as some casing of "short" or "long",
      which are not side values the exchange reports ("Buy", "Sell"). */
  lemma HeldPositionActsOnlyOnShortOrLong(
    call: Exchange.Call<Exchange.PositionBody>, signal: string,
    ctx: Reconciler.Context, reply: Option<map<string, string>>)
    requires Exchange.GetCurrentPosition(call).size > 0.0
    ensures Reconciler.Decide(signal, AsPositionInfo(Exchange.GetCurrentPosition(call)), ctx, reply) != [] ==>
      || Exchange.Lower(Exchange.FirstPosition(call).side.value) == "short"
      || Exchange.Lower(Exchange.FirstPosition(call).side.value) == "long"
  {
    var raw := Exchange.FirstPosition(call).side.value;
    Exchange.LowerCapitalize(raw);
    assert Exchange.Lower("Short") == "short";
    assert Exchange.Lower("Long") == "long";
  }

  /** With the sides the exchange reports, a held position is never closed
      or flipped: the loop does nothing for BUY and SELL alike. */
  lemma ExchangeSidesNeverFlip(
    call: Exchange.Call<Exchange.PositionBody>, signal: string,
    ctx: Reconciler.Context, reply: Option<map<string, string>>)
    requires Exchange.GetCurrentPosition(call).size > 0.0
    requires Exchange.FirstPosition(call).side == Some("Buy") || Exchange.FirstPosition(call).side == Some("Sell")
    ensures Reconciler.Decide(signal, AsPositionInfo(Exchange.GetCurrentPosition(call)), ctx, reply) == []
  {
    HeldPositionActsOnlyOnShortOrLong(call, signal, ctx, reply);
    assert Exchange.Lower("Buy") == "buy";
    assert Exchange.Lower("Sell") == "sell";
  }

  /** Every close the loop asks for names the side as "Short" or "Long", which
      the client's `close_position` rejects: no closing order is ever placed,
      though the loop still logs the CLOSE_POSITION row. */
  lemma LoopClosesAreRejected(
    signal: string, info: Option<Reconciler.PositionInfo>, ctx: Reconciler.Context,
    reply: Option<map<string, string>>,
    exchange: Exchange.OrderRequest -> Exchange.Call<Exchange.OrderBody>, k: int)
    requires 0 <= k < |Reconciler.Decide(signal, info, ctx, reply)|
    requires Reconciler.Decide(signal, info, ctx, reply)[k].ClosePosition?
    ensures var e := Reconciler.Decide(signal, info, ctx, reply)[k];
      Exchange.ClosePosition(e.symbol, e.side, e.qty, exchange).None?
    ensures var t := Reconciler.Decide(signal, info, ctx, reply);
      k + 1 < |t| && t[k + 1].LogTrade? && t[k + 1].entry.action == "CLOSE_POSITION"
  {
    var t := Reconciler.Decide(signal, info, ctx, reply);
    assert t[k].side == Reconciler.FlippedSide(signal);
  }

  /** An order reply produced by the client's `place_order` is acknowledged
      exactly when the order was accepted, and the OPEN_POSITION row then
      carries the exchange's `orderId`. */
  lemma OpenRowCarriesExchangeOrderId(
    signal: string, info: Option<Reconciler.PositionInfo>, ctx: Reconciler.Context,
    side: string, exchange: Exchange.OrderRequest -> Exchange.Call<Exchange.OrderBody>, k: int)
    requires var p := Exchange.PlaceOrder(ctx.symbol, side, ctx.quantity, exchange);
      0 <= k < |Reconciler.Decide(signal, info, ctx, p.result)|
    requires var p := Exchange.PlaceOrder(ctx.symbol, side, ctx.quantity, exchange);
      var e := Reconciler.Decide(signal, info, ctx, p.result)[k];
      e.LogTrade? && e.entry.action == "OPEN_POSITION"
    ensures var p := Exchange.PlaceOrder(ctx.symbol, side, ctx.quantity, exchange);
      && Exchange.OrderAccepted(exchange(p.request))
      && Reconciler.Decide(signal, info, ctx, p.result)[k].entry.orderId == Some(p.result.value["orderId"])
  {
  }

  /** A reply from the client's `place_order` is acknowledged exactly when it
      is not `None`. */
  lemma ClientRepliesAcknowledged(symbol: string, side: string, qty: real, exchange: Exchange.OrderRequest -> Exchange.Call<Exchange.OrderBody>)
    ensures var p := Exchange.PlaceOrder(symbol, side, qty, exchange);
      Reconciler.Acknowledged(p.result) <==> p.result.Some?
  {
    var p := Exchange.PlaceOrder(symbol, side, qty, exchange);
    if p.result.Some? {
      assert "orderId" in p.result.value;
    }
  }

  /** A failed candle fetch, or an empty list, aborts the tick before any
      order is placed. */
  lemma NoKlinesNoTrade(
    call: Exchange.Call<Exchange.KlineBody<Candles.Candle>>, signal: string,
    info: Option<Reconciler.PositionInfo>, symbol: string, quantity: real, balance: real,
    reply: Option<map<string, string>>)
    ensures Reconciler.Tick(Exchange.GetKlines(call), signal, info, symbol, quantity, balance, reply).NoCandles?
      <==> !Exchange.HasKlineList(call) || Exchange.KlineList(call) == []
  {
  }

  /** When the exchange lists candles strictly newest first, the tick's price
      is the close of the first candle in its list. */
  lemma PriceIsNewestExchangeClose(
    call: Exchange.Call<Exchange.KlineBody<Candles.Candle>>, signal: string,
    info: Option<Reconciler.PositionInfo>, symbol: string, quantity: real, balance: real,
    reply: Option<map<string, string>>)
    requires Exchange.HasKlineList(call) && Exchange.KlineList(call) != []
    requires var l := Exchange.KlineList(call);
      forall i, j :: 0 <= i < j < |l| ==> l[i].startTime > l[j].startTime
    ensures Reconciler.Tick(Exchange.GetKlines(call), signal, info, symbol, quantity, balance, reply).price
      == Exchange.KlineList(call)[0].close
  {
    var candles := Exchange.GetKlines(call);
    var l := Exchange.KlineList(call);
    assert Candles.StrictlyByTime(candles) by {
      forall i, j | 0 <= i < j < |candles|
        ensures candles[i].startTime < candles[j].startTime
      {
        assert candles[i] == l[|l| - 1 - i] && candles[j] == l[|l| - 1 - j];
      }
    }
    Candles.CurrentPriceOfSorted(candles);
  }
}
