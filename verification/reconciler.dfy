/**
  One tick of the bot's main loop, from the candles and the position it reads
  to the ordered effects it causes: exchange calls and trade-log rows.

  The signal comes from a strategy module this model does not include and is
  an input string. The position is the dictionary the loop indexes with
  `size`, `side` and `avgPrice`, and its side string is compared with "Short"
  and "Long" exactly as the loop does. Prices, sizes and PnL are exact reals.
*/
module Reconciler {
  import opened Wrappers
  import Ledger
  import Candles

  /** The position record the loop reads; `None` when the lookup gave nothing. */
  datatype PositionInfo = PositionInfo(size: real, side: string, avgPrice: real)

  /** The loop's three locals: size, side and average entry price. */
  datatype Holding = Holding(size: real, side: Option<string>, avgEntry: Option<real>)

  /** The defaults the loop applies to a missing position record. */
  function ReadPosition(info: Option<PositionInfo>): (h: Holding)
    ensures info.None? ==> h.size == 0.0 && h.side.None? && h.avgEntry.None?
    ensures info.Some? ==>
      && h.size == info.value.size
      && h.side == Some(info.value.side)
      && h.avgEntry == Some(info.value.avgPrice)
    ensures h.side.Some? <==> h.avgEntry.Some?
    ensures h.size != 0.0 ==> h.side.Some?
  {
    match info
    case None => Holding(0.0, None, None)
    case Some(p) => Holding(p.size, Some(p.side), Some(p.avgPrice))
  }

  /** The effects of a tick, in the order the loop causes them. */
  datatype Effect =
    | PlaceOrder(symbol: string, side: string, qty: real)
    | ClosePosition(symbol: string, side: string, qty: real)
    | LogTrade(entry: Ledger.TradeEntry)

  /** The configured symbol and quantity and the tick's price and balance. */
  datatype Context = Context(symbol: string, quantity: real, price: real, balance: real)

  /** `if order_response:` — a reply counts when it is a non-empty record. */
  predicate Acknowledged(reply: Option<map<string, string>>)
  {
    reply.Some? && reply.value != map[]
  }

  /** The order side a signal opens with. */
  function OrderSide(signal: string): string
  {
    if signal == "BUY" then "Buy" else "Sell"
  }

  /** The held side a signal flips, as the loop spells it. */
  function FlippedSide(signal: string): string
  {
    if signal == "BUY" then "Short" else "Long"
  }

  function OpenEntry(ctx: Context, side: string, reply: Option<map<string, string>>): Ledger.TradeEntry
    requires reply.Some?
  {
    Ledger.Trade(ctx.symbol, "OPEN_POSITION", side, ctx.quantity, ctx.price,
      balanceAfterTrade := Some(ctx.balance),
      orderId := Lookup(reply.value, "orderId"),
      status := "SUBMITTED")
  }

  /** Estimated PnL of closing a short entered at `entry` at the current price. */
  function ShortPnl(entry: real, price: real, size: real): real
  {
    (entry - price) * size
  }

  /** Estimated PnL of closing a long entered at `entry` at the current price. */
  function LongPnl(entry: real, price: real, size: real): real
  {
    (price - entry) * size
  }

  /** A product with a positive factor is positive exactly when the other factor is. */
  lemma PositiveFactor(a: real, b: real)
    requires b > 0.0
    ensures a * b > 0.0 <==> a > 0.0
  {
    if a > 0.0 {
      assert a * b > 0.0;
    } else {
      assert (-a) * b >= 0.0;
      assert a * b == -((-a) * b);
    }
  }

  /** A short gains when the price has fallen below its entry, a long when
      it has risen above it. */
  lemma PnlSigns(entry: real, price: real, size: real)
    requires size > 0.0
    ensures ShortPnl(entry, price, size) > 0.0 <==> price < entry
    ensures LongPnl(entry, price, size) > 0.0 <==> price > entry
    ensures ShortPnl(entry, price, size) == -LongPnl(entry, price, size)
  {
    var gain := entry - price;
    assert ShortPnl(entry, price, size) == gain * size;
    assert LongPnl(entry, price, size) == (-gain) * size;
    PositiveFactor(gain, size);
    PositiveFactor(-gain, size);
    assert (-gain) * size == -(gain * size);
  }

  /** Place the order, then log it when the reply is acknowledged. */
  function Open(ctx: Context, side: string, reply: Option<map<string, string>>): seq<Effect>
  {
    [PlaceOrder(ctx.symbol, side, ctx.quantity)]
      + (if Acknowledged(reply) then [LogTrade(OpenEntry(ctx, side, reply))] else [])
  }

  /** Close the held position and log the close with its estimated PnL. */
  function Close(ctx: Context, heldSide: string, orderSide: string, size: real, pnl: real, status: string): seq<Effect>
  {
    [ ClosePosition(ctx.symbol, heldSide, size),
      LogTrade(Ledger.Trade(ctx.symbol, "CLOSE_POSITION", orderSide, size, ctx.price,
        pnl := Some(pnl), balanceAfterTrade := Some(ctx.balance), status := status)) ]
  }

  /** A row records the exchange call just before it. */
  predicate Records(call: Effect, e: Ledger.TradeEntry)
  {
    || (&& call.PlaceOrder?
        && e.action == "OPEN_POSITION" && e.side == call.side && e.quantity == call.qty
        && e.pnl.None? && e.status == "SUBMITTED")
    || (&& call.ClosePosition?
        && e.action == "CLOSE_POSITION" && e.quantity == call.qty
        && e.pnl.Some? && e.orderId.None?)
  }

  /** The shape of every trace: each row comes right after the call it
      records, a close comes first, and at most one order is placed, for the
      configured symbol and quantity. Every row carries the tick's price and
      balance. */
  ghost predicate WellFormedTrace(t: seq<Effect>, ctx: Context)
  {
    && (forall k :: 0 <= k < |t| && t[k].LogTrade? ==>
          && k > 0 && Records(t[k - 1], t[k].entry)
          && t[k].entry.price == ctx.price
          && t[k].entry.balanceAfterTrade == Some(ctx.balance))
    && (forall k :: 0 <= k < |t| && t[k].ClosePosition? ==> k == 0)
    && (forall j, k :: 0 <= j < |t| && 0 <= k < |t| && t[j].PlaceOrder? && t[k].PlaceOrder? ==> j == k)
    && (forall k :: 0 <= k < |t| && t[k].PlaceOrder? ==> t[k].symbol == ctx.symbol && t[k].qty == ctx.quantity)
  }

  /** Every order and every row of `t` is on `side`. */
  ghost predicate OnSide(t: seq<Effect>, side: string)
  {
    && (forall k :: 0 <= k < |t| && t[k].PlaceOrder? ==> t[k].side == side)
    && (forall k :: 0 <= k < |t| && t[k].LogTrade? ==> t[k].entry.side == side)
  }

  /** Every OPEN_POSITION row answers an acknowledged reply and carries its
      `orderId`. */
  ghost predicate RowsCiteReply(t: seq<Effect>, reply: Option<map<string, string>>)
  {
    forall k :: 0 <= k < |t| && t[k].LogTrade? && t[k].entry.action == "OPEN_POSITION" ==>
      Acknowledged(reply) && t[k].entry.orderId == Lookup(reply.value, "orderId")
  }

  /** Every close in `t` is of a position held on `side`. */
  ghost predicate ClosesSide(t: seq<Effect>, side: string)
  {
    forall k :: 0 <= k < |t| && t[k].ClosePosition? ==> t[k].side == side
  }

  lemma OpenShape(ctx: Context, side: string, reply: Option<map<string, string>>)
    ensures WellFormedTrace(Open(ctx, side, reply), ctx)
    ensures OnSide(Open(ctx, side, reply), side)
    ensures RowsCiteReply(Open(ctx, side, reply), reply)
    ensures forall anySide :: ClosesSide(Open(ctx, side, reply), anySide)
  {
  }

  lemma FlipShape(ctx: Context, heldSide: string, side: string, size: real, pnl: real, status: string, reply: Option<map<string, string>>)
    ensures WellFormedTrace(Close(ctx, heldSide, side, size, pnl, status) + Open(ctx, side, reply), ctx)
    ensures OnSide(Close(ctx, heldSide, side, size, pnl, status) + Open(ctx, side, reply), side)
    ensures RowsCiteReply(Close(ctx, heldSide, side, size, pnl, status) + Open(ctx, side, reply), reply)
    ensures ClosesSide(Close(ctx, heldSide, side, size, pnl, status) + Open(ctx, side, reply), heldSide)
  {
    var t := Close(ctx, heldSide, side, size, pnl, status) + Open(ctx, side, reply);
    assert t[0].ClosePosition? && t[1].LogTrade? && t[2].PlaceOrder?;
    assert |t| == 4 ==> t[3].LogTrade? && t[3].entry.action == "OPEN_POSITION";
  }

  /** The BUY/SELL/HOLD branch of the loop. */
  function Decide(signal: string, info: Option<PositionInfo>, ctx: Context, reply: Option<map<string, string>>): (trace: seq<Effect>)
    ensures signal != "BUY" && signal != "SELL" ==> trace == []
    ensures WellFormedTrace(trace, ctx)
    ensures OnSide(trace, OrderSide(signal))
    ensures ClosesSide(trace, FlippedSide(signal))
    ensures RowsCiteReply(trace, reply)
  {
    var h := ReadPosition(info);
    if signal == "BUY" then
      if h.size == 0.0 then
        OpenShape(ctx, "Buy", reply);
        Open(ctx, "Buy", reply)
      else if h.side == Some("Short") then
        var pnl := ShortPnl(h.avgEntry.value, ctx.price, h.size);
        FlipShape(ctx, h.side.value, "Buy", h.size, pnl, "CLOSED SHORT", reply);
        Close(ctx, h.side.value, "Buy", h.size, pnl, "CLOSED SHORT") + Open(ctx, "Buy", reply)
      else []
    else if signal == "SELL" then
      if h.size == 0.0 then
        OpenShape(ctx, "Sell", reply);
        Open(ctx, "Sell", reply)
      else if h.side == Some("Long") then
        var pnl := LongPnl(h.avgEntry.value, ctx.price, h.size);
        FlipShape(ctx, h.side.value, "Sell", h.size, pnl, "CLOSED LONG", reply);
        Close(ctx, h.side.value, "Sell", h.size, pnl, "CLOSED LONG") + Open(ctx, "Sell", reply)
      else []
    else []
  }

  /** With no position (whatever its side string says), BUY and SELL place
      exactly one order and log it only when the reply is acknowledged. */
  lemma OpensWhenFlat(signal: string, info: Option<PositionInfo>, ctx: Context, reply: Option<map<string, string>>)
    requires signal == "BUY" || signal == "SELL"
    requires ReadPosition(info).size == 0.0
    ensures var t := Decide(signal, info, ctx, reply);
      && 1 <= |t| <= 2
      && t[0] == PlaceOrder(ctx.symbol, OrderSide(signal), ctx.quantity)
      && (|t| == 2 <==> Acknowledged(reply))
      && (|t| == 2 ==> t[1] == LogTrade(Ledger.TradeEntry(
            ctx.symbol, "OPEN_POSITION", OrderSide(signal), ctx.quantity, ctx.price,
            None, Some(ctx.balance), Lookup(reply.value, "orderId"), "SUBMITTED")))
  {
  }

  /** A held position on the flipped side is closed, the close is logged with
      its estimated PnL, and the new position is opened. */
  lemma FlipsOpposite(signal: string, info: Option<PositionInfo>, ctx: Context, reply: Option<map<string, string>>)
    requires signal == "BUY" || signal == "SELL"
    requires info.Some? && info.value.size != 0.0 && info.value.side == FlippedSide(signal)
    ensures var t := Decide(signal, info, ctx, reply);
      var p := info.value;
      var pnl := if signal == "BUY" then ShortPnl(p.avgPrice, ctx.price, p.size) else LongPnl(p.avgPrice, ctx.price, p.size);
      && 3 <= |t| <= 4
      && t[0] == ClosePosition(ctx.symbol, FlippedSide(signal), p.size)
      && t[1] == LogTrade(Ledger.TradeEntry(
            ctx.symbol, "CLOSE_POSITION", OrderSide(signal), p.size, ctx.price,
            Some(pnl), Some(ctx.balance), None,
            if signal == "BUY" then "CLOSED SHORT" else "CLOSED LONG"))
      && t[2] == PlaceOrder(ctx.symbol, OrderSide(signal), ctx.quantity)
      && (|t| == 4 <==> Acknowledged(reply))
  {
    var p := info.value;
    if signal == "BUY" {
      assert ReadPosition(info).side == Some("Short");
    } else {
      assert ReadPosition(info).side == Some("Long");
    }
  }

  /** A held position that is not on the flipped side is kept: nothing is
      placed and nothing is logged. */
  lemma HoldsWhenAligned(signal: string, info: Option<PositionInfo>, ctx: Context, reply: Option<map<string, string>>)
    requires signal == "BUY" || signal == "SELL"
    requires info.Some? && info.value.size != 0.0 && info.value.side != FlippedSide(signal)
    ensures Decide(signal, info, ctx, reply) == []
  {
  }

  /** The reply only decides whether the OPEN_POSITION row is written: the
      trace for any reply is the trace for a failed order plus that row when
      the reply is acknowledged. In particular the CLOSE_POSITION row is
      written whatever the close or the order returns. */
  lemma ReplyOnlyAddsOpenRow(signal: string, info: Option<PositionInfo>, ctx: Context, reply: Option<map<string, string>>)
    ensures var failed := Decide(signal, info, ctx, None);
      Decide(signal, info, ctx, reply) ==
        failed + (if failed != [] && Acknowledged(reply)
                  then [LogTrade(OpenEntry(ctx, OrderSide(signal), reply))] else [])
  {
    var side := OrderSide(signal);
    var row := if Acknowledged(reply) then [LogTrade(OpenEntry(ctx, side, reply))] else [];
    assert Open(ctx, side, reply) == Open(ctx, side, None) + row;
    var h := ReadPosition(info);
    if (signal == "BUY" || signal == "SELL") && h.size != 0.0 && h.side == Some(FlippedSide(signal)) {
      var pnl := if signal == "BUY" then ShortPnl(h.avgEntry.value, ctx.price, h.size)
                 else LongPnl(h.avgEntry.value, ctx.price, h.size);
      var status := if signal == "BUY" then "CLOSED SHORT" else "CLOSED LONG";
      var close := Close(ctx, FlippedSide(signal), side, h.size, pnl, status);
      assert Decide(signal, info, ctx, reply) == close + Open(ctx, side, reply);
      assert Decide(signal, info, ctx, None) == close + Open(ctx, side, None);
      assert close + (Open(ctx, side, None) + row) == (close + Open(ctx, side, None)) + row;
    }
  }

  /** A trace holds an OPEN_POSITION row exactly when it places an order and
      the reply is acknowledged. */
  lemma {:induction false} OpenRowIffAcknowledged(signal: string, info: Option<PositionInfo>, ctx: Context, reply: Option<map<string, string>>)
    ensures var t := Decide(signal, info, ctx, reply);
      (exists k :: 0 <= k < |t| && t[k].LogTrade? && t[k].entry.action == "OPEN_POSITION")
      <==> (t != [] && Acknowledged(reply))
  {
    var t := Decide(signal, info, ctx, reply);
    if t != [] && Acknowledged(reply) {
      assert t[|t| - 1].LogTrade? && t[|t| - 1].entry.action == "OPEN_POSITION";
    }
    if exists k :: 0 <= k < |t| && t[k].LogTrade? && t[k].entry.action == "OPEN_POSITION" {
      var k :| 0 <= k < |t| && t[k].LogTrade? && t[k].entry.action == "OPEN_POSITION";
      assert Records(t[k - 1], t[k].entry);
    }
  }

  /** The flip example: closing a short of 0.001 entered at 30000 with the
      price at 29000 is logged with an estimated PnL of 1.0. */
  lemma ShortFlipExample(ctx: Context, reply: Option<map<string, string>>)
    requires ctx.price == 29000.0
    ensures Decide("BUY", Some(PositionInfo(0.001, "Short", 30000.0)), ctx, reply)[1].entry.pnl == Some(1.0)
  {
  }

  /* ---------------------------------------------------------------------
     The tick
     --------------------------------------------------------------------- */

  datatype TickOutcome = NoCandles | Acted(price: real, trace: seq<Effect>)

  /** A tick: no candles aborts it before anything is decided; otherwise the
      price is the close of the latest candle and the trace is the decision. */
  function Tick(
    candles: seq<Candles.Candle>, signal: string, info: Option<PositionInfo>,
    symbol: string, quantity: real, balance: real,
    reply: Option<map<string, string>>): (o: TickOutcome)
    ensures o.NoCandles? <==> candles == []
    ensures o.Acted? ==>
      && (exists i :: Candles.IsLatest(candles, i) && candles[i].close == o.price)
      && o.trace == Decide(signal, info, Context(symbol, quantity, o.price, balance), reply)
  {
    if candles == [] then NoCandles
    else
      var price := Candles.CurrentPrice(candles);
      Acted(price, Decide(signal, info, Context(symbol, quantity, price, balance), reply))
  }

  /* ---------------------------------------------------------------------
     The trade log after a tick
     --------------------------------------------------------------------- */

  /** The rows a trace writes, in order. */
  function LoggedEntries(t: seq<Effect>): (es: seq<Ledger.TradeEntry>)
    ensures |es| <= |t|
    ensures forall e :: e in es <==> LogTrade(e) in t
  {
    if t == [] then []
    else if t[0].LogTrade? then [t[0].entry] + LoggedEntries(t[1..])
    else LoggedEntries(t[1..])
  }

  /** Replaying a trace on the log appends exactly its rows and keeps the
      earlier rows unchanged. */
  function RecordTrace(f: Ledger.LogFile, t: seq<Effect>, stamps: seq<string>): (g: Ledger.LogFile)
    requires |stamps| == |LoggedEntries(t)|
    ensures |Ledger.Rows(g)| == |Ledger.Rows(f)| + |LoggedEntries(t)|
    ensures Ledger.Rows(g)[..|Ledger.Rows(f)|] == Ledger.Rows(f)
    ensures forall k :: 0 <= k < |LoggedEntries(t)| ==>
      Ledger.Rows(g)[|Ledger.Rows(f)| + k] == Ledger.TradeRow(stamps[k], LoggedEntries(t)[k])
  {
    Ledger.LogAll(f, stamps, LoggedEntries(t))
  }

  /** The rows of consecutive traces are the rows of each, in order. */
  lemma {:induction false} LoggedEntriesAppend(a: seq<Effect>, b: seq<Effect>)
    ensures LoggedEntries(a + b) == LoggedEntries(a) + LoggedEntries(b)
  {
    if a != [] {
      assert (a + b)[0] == a[0] && (a + b)[1..] == a[1..] + b;
      LoggedEntriesAppend(a[1..], b);
    } else {
      assert a + b == b;
    }
  }
}
