/**
  The trade ledger: a CSV file of ten-column rows, created with a header row
  and afterwards only appended to.

  The file is `Missing` or holds its rows; a cell is the text, the number, or
  the empty text `csv.writer` writes for `None`. The timestamp of a row is
  taken from the clock in the source and is a parameter here.
*/
module Ledger {
  import opened Wrappers

  datatype Cell = Text(text: string) | Number(x: real) | Blank

  type Row = seq<Cell>

  datatype LogFile = Missing | Exists(rows: seq<Row>)

  /** The column names, in file order. */
  const Columns: seq<string> := [
    "Timestamp", "Symbol", "Action", "Side", "Quantity", "Price",
    "PNL", "BalanceAfterTrade", "OrderID", "Status"
  ]

  function HeaderRow(): (h: Row)
    ensures |h| == 10
    ensures h == [
      Text("Timestamp"), Text("Symbol"), Text("Action"), Text("Side"), Text("Quantity"),
      Text("Price"), Text("PNL"), Text("BalanceAfterTrade"), Text("OrderID"), Text("Status")]
  {
    seq(|Columns|, k requires 0 <= k < |Columns| => Text(Columns[k]))
  }

  /** The arguments of one `log_trade` call, timestamp aside. */
  datatype TradeEntry = TradeEntry(
    symbol: string,
    action: string,
    side: string,
    quantity: real,
    price: real,
    pnl: Option<real>,
    balanceAfterTrade: Option<real>,
    orderId: Option<string>,
    status: string)

  /** `log_trade`'s argument list, with the same defaults for the omitted ones. */
  function Trade(
    symbol: string, action: string, side: string, quantity: real, price: real,
    pnl: Option<real> := None,
    balanceAfterTrade: Option<real> := None,
    orderId: Option<string> := None,
    status: string := ""): TradeEntry
  {
    TradeEntry(symbol, action, side, quantity, price, pnl, balanceAfterTrade, orderId, status)
  }

  function NumberOrBlank(x: Option<real>): Cell
  {
    match x
    case Some(v) => Number(v)
    case None => Blank
  }

  function TextOrBlank(s: Option<string>): Cell
  {
    match s
    case Some(v) => Text(v)
    case None => Blank
  }

  /** The cell an entry holds under a named column. */
  function Field(column: string, timestamp: string, e: TradeEntry): Cell
  {
    match column
    case "Timestamp" => Text(timestamp)
    case "Symbol" => Text(e.symbol)
    case "Action" => Text(e.action)
    case "Side" => Text(e.side)
    case "Quantity" => Number(e.quantity)
    case "Price" => Number(e.price)
    case "PNL" => NumberOrBlank(e.pnl)
    case "BalanceAfterTrade" => NumberOrBlank(e.balanceAfterTrade)
    case "OrderID" => TextOrBlank(e.orderId)
    case "Status" => Text(e.status)
    case _ => Blank
  }

  /** The row `log_trade` writes, one cell per header column, in header order. */
  function TradeRow(timestamp: string, e: TradeEntry): (r: Row)
    ensures |r| == |HeaderRow()|
    ensures forall k :: 0 <= k < |r| ==> HeaderRow()[k] == Text(Columns[k]) && r[k] == Field(Columns[k], timestamp, e)
  {
    [ Text(timestamp), Text(e.symbol), Text(e.action), Text(e.side),
      Number(e.quantity), Number(e.price),
      NumberOrBlank(e.pnl), NumberOrBlank(e.balanceAfterTrade), TextOrBlank(e.orderId),
      Text(e.status) ]
  }

  /** The rows of the file; none when it does not exist. */
  function Rows(f: LogFile): seq<Row>
  {
    if f.Exists? then f.rows else []
  }

  /** `initialize_trade_log`: writes the header only when the file is missing. */
  function InitializeTradeLog(f: LogFile): (g: LogFile)
    ensures g.Exists?
    ensures f.Missing? ==> Rows(g) == [HeaderRow()]
    ensures f.Exists? ==> g == f
  {
    if f.Missing? then Exists([HeaderRow()]) else f
  }

  lemma InitializeIdempotent(f: LogFile)
    ensures InitializeTradeLog(InitializeTradeLog(f)) == InitializeTradeLog(f)
  {
  }

  /** `log_trade`: opens the file for appending (creating it, header-less, if
      it is missing) and writes one row. */
  function LogTrade(f: LogFile, timestamp: string, e: TradeEntry): (g: LogFile)
    ensures g.Exists?
    ensures |Rows(g)| == |Rows(f)| + 1
    ensures Rows(g)[..|Rows(f)|] == Rows(f)
    ensures Rows(g)[|Rows(f)|] == TradeRow(timestamp, e)
  {
    Exists(Rows(f) + [TradeRow(timestamp, e)])
  }

  /** A row written for a call that omits the optional arguments has blank
      PNL, BalanceAfterTrade and OrderID cells and an empty Status. */
  lemma OmittedArgumentsDefault(symbol: string, action: string, side: string, quantity: real, price: real, timestamp: string)
    ensures var r := TradeRow(timestamp, Trade(symbol, action, side, quantity, price));
      r[6] == Blank && r[7] == Blank && r[8] == Blank && r[9] == Text("")
  {
  }

  /** When the log started out missing, the header stays its first row
      whatever is logged after initialization. (An existing file, even an
      empty one, never gets a header.) */
  lemma HeaderStaysFirst(f: LogFile, stamps: seq<string>, entries: seq<TradeEntry>)
    requires |stamps| == |entries|
    ensures var g := LogAll(InitializeTradeLog(f), stamps, entries);
      f.Missing? ==> |Rows(g)| >= 1 && Rows(g)[0] == HeaderRow()
  {
    var f0 := InitializeTradeLog(f);
    var g := LogAll(f0, stamps, entries);
    assert Rows(g)[..|Rows(f0)|] == Rows(f0);
    if f.Missing? {
      assert Rows(g)[0] == Rows(g)[..|Rows(f0)|][0];
    }
  }

  /** Several `log_trade` calls in order, one timestamp per entry. */
  function LogAll(f: LogFile, stamps: seq<string>, entries: seq<TradeEntry>): (g: LogFile)
    requires |stamps| == |entries|
    ensures |Rows(g)| == |Rows(f)| + |entries|
    ensures Rows(g)[..|Rows(f)|] == Rows(f)
    ensures forall k :: 0 <= k < |entries| ==> Rows(g)[|Rows(f)| + k] == TradeRow(stamps[k], entries[k])
    decreases |entries|
  {
    if entries == [] then f
    else
      var n := |entries| - 1;
      LogTrade(LogAll(f, stamps[..n], entries[..n]), stamps[n], entries[n])
  }
}
