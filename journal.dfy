/** The figures the journal screens compute from the two tables: the deposit
    (cash not tied up in open trades), the trade the record form stores, the
    fee-adjusted valuation of open positions and its totals, the R-multiple
    of an open position and its progress bar. */
module Journal {
  import opened Wrappers
  import opened Numeric
  import opened Symbols
  import opened PositionSizer
  import opened Ledger
  import opened LedgerProperties

  /** The flat broker fee charged on the evaluation amount (0.23%). */
  const FeeRate: real := 0.0023

  /** The strategy label the record form stores. */
  const RecordedStrategy: string := "TrendBreakout"

  // ----------------------------------------------------------------- deposit

  /** Money a trade ties up: entry price times quantity. */
  function Cost(t: Trade): real {
    t.entryPrice * t.quantity as real
  }

  /** Total cost of a list of trades. */
  function Invested(trades: seq<Trade>): real {
    if |trades| == 0 then 0.0
    else Invested(trades[..|trades| - 1]) + Cost(trades[|trades| - 1])
  }

  /** The cost of the account's Open trades, summed row by row. */
  function OpenCost(trades: seq<Trade>, accountId: string): real {
    if |trades| == 0 then 0.0
    else
      var last := trades[|trades| - 1];
      OpenCost(trades[..|trades| - 1], accountId) + (if Selected(last, Some(accountId), Some(Open)) then Cost(last) else 0.0)
  }

  /** The sidebar deposit for the selected account: the CurrentBalance of its
      first row minus the cost of its Open trades. There is none without a
      selection, nor for an id the Accounts table does not hold. */
  function Deposit(accounts: seq<Account>, trades: seq<Trade>, selected: string): (r: Option<real>)
    ensures r.Some? <==> selected != "" && HasAccount(accounts, selected)
  {
    if selected == "" then None
    else match Balance(accounts, selected)
      case None => None
      case Some(balance) => Some(balance - OpenCost(trades, selected))
  }

  lemma CostOfNewRow(id: int, ticket: TradeTicket, today: string)
    ensures Cost(NewTradeRow(id, ticket, today)) == ticket.entry * ticket.qty as real
  {
  }

  lemma InvestedSnoc(trades: seq<Trade>, t: Trade)
    ensures Invested(trades + [t]) == Invested(trades) + Cost(t)
  {
    assert (trades + [t])[..|trades|] == trades;
  }

  lemma {:induction false} InvestedOfNothing(trades: seq<Trade>)
    requires trades == []
    ensures Invested(trades) == 0.0
  {
  }

  /** The cost of an account's Open trades grows by a row's cost when that
      row is appended and is one of them. */
  lemma InvestedOpenSnoc(init: seq<Trade>, x: Trade, accountId: string)
    ensures Invested(SelectTrades(init + [x], Some(accountId), Some(Open)))
         == Invested(SelectTrades(init, Some(accountId), Some(Open)))
            + (if Selected(x, Some(accountId), Some(Open)) then Cost(x) else 0.0)
  {
    var sel := SelectTrades(init, Some(accountId), Some(Open));
    SelectSnoc(init, x, Some(accountId), Some(Open));
    if Selected(x, Some(accountId), Some(Open)) {
      InvestedSnoc(sel, x);
    } else {
      assert sel + [] == sel;
    }
  }

  /** Summing row by row gives the total cost of the rows the trade query
      returns for the account and status Open. */
  lemma {:induction false} OpenCostIsInvested(trades: seq<Trade>, accountId: string)
    ensures Invested(SelectTrades(trades, Some(accountId), Some(Open))) == OpenCost(trades, accountId)
  {
    if |trades| > 0 {
      var n := |trades| - 1;
      assert trades == trades[..n] + [trades[n]];
      OpenCostIsInvested(trades[..n], accountId);
      InvestedOpenSnoc(trades[..n], trades[n], accountId);
    }
  }

  /** The deposit is the balance less the summed cost of the trades the
      query for this account's Open trades returns. */
  lemma DepositIsBalanceLessOpenTrades(accounts: seq<Account>, trades: seq<Trade>, selected: string)
    requires selected != "" && HasAccount(accounts, selected)
    ensures Deposit(accounts, trades, selected).value
         == Balance(accounts, selected).value - Invested(SelectTrades(trades, Some(selected), Some(Open)))
  {
    OpenCostIsInvested(trades, selected);
  }

  /** With no Open trade under the account, the deposit is the whole balance. */
  lemma {:induction false} DepositWithoutOpenTrades(accounts: seq<Account>, trades: seq<Trade>, selected: string)
    requires selected != "" && HasAccount(accounts, selected)
    requires forall t :: t in trades ==> !Selected(t, Some(selected), Some(Open))
    ensures Deposit(accounts, trades, selected).value == Balance(accounts, selected).value
  {
    var open := SelectTrades(trades, Some(selected), Some(Open));
    assert forall t :: t !in open;
    assert open == [];
    InvestedOfNothing(open);
    DepositIsBalanceLessOpenTrades(accounts, trades, selected);
  }

  /** Recording a trade for the selected account lowers its deposit by the
      trade's cost; the balance itself does not move. */
  lemma DepositAfterAdd(accounts: seq<Account>, trades: seq<Trade>, ticket: TradeTicket, today: string)
    requires ticket.accountId != "" && HasAccount(accounts, ticket.accountId)
    ensures var added := trades + [NewTradeRow(NextTradeId(trades), ticket, today)];
      Deposit(accounts, added, ticket.accountId).value
        == Deposit(accounts, trades, ticket.accountId).value - ticket.entry * ticket.qty as real
  {
    var acc := ticket.accountId;
    var row := NewTradeRow(NextTradeId(trades), ticket, today);
    assert (trades + [row])[..|trades|] == trades;
    assert Selected(row, Some(acc), Some(Open));
    assert OpenCost(trades + [row], acc) == OpenCost(trades, acc) + Cost(row);
    CostOfNewRow(NextTradeId(trades), ticket, today);
  }

  /** Replacing a selected row by an unselected one takes its cost out of the
      account's open cost. */
  lemma {:induction false} OpenCostAfterDeselect(trades: seq<Trade>, i: nat, c: Trade, accountId: string)
    requires i < |trades| && Selected(trades[i], Some(accountId), Some(Open)) && !Selected(c, Some(accountId), Some(Open))
    ensures OpenCost(trades[i := c], accountId) == OpenCost(trades, accountId) - Cost(trades[i])
  {
    var n := |trades| - 1;
    var init := trades[..n];
    if i == n {
      assert trades[i := c][..n] == init;
    } else {
      assert trades[i := c][..n] == init[i := c];
      OpenCostAfterDeselect(init, i, c, accountId);
    }
  }

  /** Closing an Open trade of the selected account raises its deposit by the
      realised P&L, which reaches the balance, plus the entry cost, which
      leaves the open cost: together the sale proceeds (`ProceedsSplit`). */
  lemma CloseReleasesProceeds(b: Tables, id: int, exitPrice: real, today: string, i: nat)
    requires FindTrade(b.trades, id) == Some(i)
    requires b.trades[i].status == Open && b.trades[i].accountId != ""
    requires HasAccount(b.accounts, b.trades[i].accountId)
    ensures var t := b.trades[i];
      var after := CloseTradeStep(b, id, exitPrice, today).tables;
      && Deposit(after.accounts, after.trades, t.accountId).Some?
      && Deposit(after.accounts, after.trades, t.accountId).value
           == Deposit(b.accounts, b.trades, t.accountId).value + (RealisedPnl(t, exitPrice) + Cost(t))
  {
    var t := b.trades[i];
    var acc := t.accountId;
    var after := CloseTradeStep(b, id, exitPrice, today).tables;
    CloseCreditsPnl(b, id, exitPrice, today, i, acc);
    CloseTakesOutCost(b, id, exitPrice, today, i);
    DepositShift(b.accounts, b.trades, after.accounts, after.trades, acc,
                 RealisedPnl(t, exitPrice), Cost(t), RealisedPnl(t, exitPrice) + Cost(t));
  }

  /** The deposit moves by what the balance gains plus what the open cost
      loses. */
  lemma DepositShift(accounts0: seq<Account>, trades0: seq<Trade>, accounts1: seq<Account>, trades1: seq<Trade>,
                     acc: string, gain: real, released: real, total: real)
    requires acc != "" && HasAccount(accounts0, acc) && HasAccount(accounts1, acc)
    requires Balance(accounts1, acc).value == Balance(accounts0, acc).value + gain
    requires OpenCost(trades1, acc) == OpenCost(trades0, acc) - released
    requires gain + released == total
    ensures Deposit(accounts1, trades1, acc).value == Deposit(accounts0, trades0, acc).value + total
  {
  }

  /** Closing an Open trade takes its cost out of its account's open cost. */
  lemma CloseTakesOutCost(b: Tables, id: int, exitPrice: real, today: string, i: nat)
    requires FindTrade(b.trades, id) == Some(i)
    requires b.trades[i].status == Open
    ensures var acc := b.trades[i].accountId;
      OpenCost(CloseTradeStep(b, id, exitPrice, today).tables.trades, acc) == OpenCost(b.trades, acc) - Cost(b.trades[i])
  {
    var t := b.trades[i];
    CloseRewritesOneRow(b, id, exitPrice, today, i);
    OpenCostAfterDeselect(b.trades, i, ClosedRow(t, exitPrice, today), t.accountId);
  }

  /** Sale proceeds are the realised P&L plus the entry cost. */
  lemma ProceedsSplit(t: Trade, exitPrice: real)
    ensures RealisedPnl(t, exitPrice) + Cost(t) == exitPrice * t.quantity as real
  {
  }

  // ------------------------------------------------------------ record form

  /** The stop the calculator derives from a percentage below the entry. A
      positive entry and a percentage strictly between 0 and 100 give a stop
      strictly between 0 and the entry, `slPct` percent of the entry away. */
  function StopLossFromPct(entry: real, slPct: real): (sl: real)
    ensures entry - sl == entry * slPct / 100.0
    ensures entry > 0.0 && 0.0 < slPct < 100.0 ==> 0.0 < sl < entry
  {
    var sl := entry * (1.0 - slPct / 100.0);
    assert entry > 0.0 && 0.0 < slPct < 100.0 ==> 0.0 < sl < entry by {
      if entry > 0.0 && 0.0 < slPct < 100.0 {
        var k := 1.0 - slPct / 100.0;
        assert 0.0 < k < 1.0;
        assert entry * k > 0.0;
        assert entry - entry * k == entry * (1.0 - k) > 0.0;
      }
    }
    sl
  }

  /** The record form: a trade is stored only with an account selected, a
      positive quantity and a positive entry price. The stored risk is the
      quantity actually bought times the stop distance, and the unit is a
      third of that quantity truncated. The symbol typed into the form is
      stored padded. */
  function RecordTrade(selected: string, rawSymbol: string, trendScore: int, entry: real, sl: real,
                       qty: int, date: string): (r: Option<TradeTicket>)
    ensures r.Some? <==> selected != "" && qty > 0 && entry > 0.0
    ensures r.Some? ==>
      && r.value.accountId == selected && r.value.symbol == NormalizeSymbol(rawSymbol)
      && r.value.strategy == RecordedStrategy && r.value.trendScore == trendScore
      && r.value.entry == entry && r.value.sl == sl && r.value.qty == qty
      && r.value.entryDate == Some(date)
      && r.value.risk == qty as real * Abs(entry - sl) >= 0.0
      && r.value.unitQty == qty / 3 && 3 * r.value.unitQty <= qty < 3 * r.value.unitQty + 3
  {
    if selected != "" && qty > 0 && entry > 0.0 then
      UnitSplit(qty);
      Some(TradeTicket(selected, NormalizeSymbol(rawSymbol), RecordedStrategy, trendScore, entry, sl, qty,
                       Trunc(qty as real / 3.0), qty as real * Abs(entry - sl), Some(date)))
    else None
  }

  /** The recorded risk is what the stored row loses if it is closed at its
      stop below the entry: closing at the stop realises exactly minus the
      risk. */
  lemma RecordedRiskIsLossAtStop(selected: string, symbol: string, trendScore: int, entry: real, sl: real,
                                 qty: int, date: string, id: int, today: string)
    requires sl <= entry
    requires RecordTrade(selected, symbol, trendScore, entry, sl, qty, date).Some?
    ensures var ticket := RecordTrade(selected, symbol, trendScore, entry, sl, qty, date).value;
      RealisedPnl(NewTradeRow(id, ticket, today), sl) == -ticket.risk
  {
    var ticket := RecordTrade(selected, symbol, trendScore, entry, sl, qty, date).value;
    var row := NewTradeRow(id, ticket, today);
    assert Abs(entry - sl) == entry - sl;
    assert (sl - entry) * qty as real == -(qty as real * (entry - sl));
  }

  /** Recording the quantity the sizer proposed keeps the recorded risk
      within the sizer's unrounded risk budget. */
  lemma RecordingSizedQuantityStaysInBudget(capital: real, riskPct: real, entry: real, sl: real, trendScore: int,
                                           selected: string, symbol: string, date: string)
    requires capital >= 0.0 && riskPct >= 0.0
    requires CalculatePosition(capital, riskPct, entry, sl, trendScore).Some?
    requires RecordTrade(selected, symbol, trendScore, entry, sl,
                         CalculatePosition(capital, riskPct, entry, sl, trendScore).value.totalQty, date).Some?
    ensures RecordTrade(selected, symbol, trendScore, entry, sl,
                        CalculatePosition(capital, riskPct, entry, sl, trendScore).value.totalQty, date).value.risk
         <= RiskBudget(capital, riskPct, trendScore)
  {
    var s := CalculatePosition(capital, riskPct, entry, sl, trendScore).value;
    var ticket := RecordTrade(selected, symbol, trendScore, entry, sl, s.totalQty, date).value;
    PositionFitsRiskBudget(capital, riskPct, entry, sl, trendScore);
    assert ticket.risk == s.totalQty as real * s.slDist;
  }

  // --------------------------------------------------------- open positions

  /** One line of the open-position summary. */
  datatype Mark = Mark(tradeId: int, price: real, evalAmt: real, fee: real, netPnl: real)

  /** The price a position is valued at: the quote for its padded code, or
      the entry price when the quote is missing or zero. */
  function ValuationPrice(t: Trade, feed: string -> Option<real>): (p: real)
    ensures FetchCurrentPrice(t.symbol, feed).Some? && FetchCurrentPrice(t.symbol, feed).value != 0.0 ==>
      p == FetchCurrentPrice(t.symbol, feed).value
    ensures FetchCurrentPrice(t.symbol, feed).None? || FetchCurrentPrice(t.symbol, feed).value == 0.0 ==>
      p == t.entryPrice
  {
    match FetchCurrentPrice(t.symbol, feed)
    case Some(q) => if q != 0.0 then q else t.entryPrice
    case None => t.entryPrice
  }

  /** The valuation of one open trade at price `price`: evaluation amount,
      the fee on it, and the P&L net of that fee. */
  function MarkAt(t: Trade, price: real): (m: Mark)
    ensures m.tradeId == t.tradeId && m.price == price
    ensures m.evalAmt == price * t.quantity as real
    ensures m.fee == FeeRate * m.evalAmt
    ensures m.netPnl == m.evalAmt - Cost(t) - m.fee
  {
    var evalAmt := price * t.quantity as real;
    var fee := evalAmt * FeeRate;
    Mark(t.tradeId, price, evalAmt, fee, (price * t.quantity as real - t.entryPrice * t.quantity as real) - fee)
  }

  function MarkPosition(t: Trade, feed: string -> Option<real>): Mark {
    MarkAt(t, ValuationPrice(t, feed))
  }

  /** The forms the all-accounts summary writes the fee and the net P&L in,
      `(price * qty) * rate` and `(price - entry) * qty - fee`, give the same
      numbers. */
  lemma NetPnlForms(t: Trade, price: real)
    ensures (price * t.quantity as real) * FeeRate == MarkAt(t, price).fee
    ensures (price - t.entryPrice) * t.quantity as real - (price * t.quantity as real) * FeeRate == MarkAt(t, price).netPnl
  {
    assert (price - t.entryPrice) * t.quantity as real == price * t.quantity as real - t.entryPrice * t.quantity as real;
  }

  /** A position with no usable quote is valued at its entry, so its net P&L
      is minus the fee on its cost. */
  lemma UnquotedPositionLosesOnlyFee(t: Trade, feed: string -> Option<real>)
    requires FetchCurrentPrice(t.symbol, feed).None? || FetchCurrentPrice(t.symbol, feed).value == 0.0
    ensures MarkPosition(t, feed).netPnl == -(FeeRate * Cost(t))
  {
  }

  /** Price 10,500, entry 10,000, 100 shares: fee 2,415 and net 47,585. */
  lemma MarkExample(t: Trade)
    requires t.entryPrice == 10000.0 && t.quantity == 100
    ensures MarkAt(t, 10500.0).evalAmt == 1050000.0
    ensures MarkAt(t, 10500.0).fee == 2415.0
    ensures MarkAt(t, 10500.0).netPnl == 47585.0
  {
  }

  function MarkAll(trades: seq<Trade>, feed: string -> Option<real>): (r: seq<Mark>)
    ensures |r| == |trades|
    ensures forall k :: 0 <= k < |r| ==> r[k] == MarkPosition(trades[k], feed)
  {
    if |trades| == 0 then []
    else MarkAll(trades[..|trades| - 1], feed) + [MarkPosition(trades[|trades| - 1], feed)]
  }

  function SumEval(marks: seq<Mark>): real {
    if |marks| == 0 then 0.0 else SumEval(marks[..|marks| - 1]) + marks[|marks| - 1].evalAmt
  }

  function SumFee(marks: seq<Mark>): real {
    if |marks| == 0 then 0.0 else SumFee(marks[..|marks| - 1]) + marks[|marks| - 1].fee
  }

  function SumNet(marks: seq<Mark>): real {
    if |marks| == 0 then 0.0 else SumNet(marks[..|marks| - 1]) + marks[|marks| - 1].netPnl
  }

  lemma SumsSnoc(marks: seq<Mark>, m: Mark)
    ensures SumEval(marks + [m]) == SumEval(marks) + m.evalAmt
    ensures SumFee(marks + [m]) == SumFee(marks) + m.fee
    ensures SumNet(marks + [m]) == SumNet(marks) + m.netPnl
  {
    assert (marks + [m])[..|marks|] == marks;
  }

  /** The totals reconcile: the total fee is the fee rate on the total
      evaluation amount, and the total net P&L is evaluation minus cost minus
      fee. */
  lemma {:induction false} TotalsReconcile(trades: seq<Trade>, feed: string -> Option<real>)
    ensures SumFee(MarkAll(trades, feed)) == FeeRate * SumEval(MarkAll(trades, feed))
    ensures SumNet(MarkAll(trades, feed)) == SumEval(MarkAll(trades, feed)) - Invested(trades) - SumFee(MarkAll(trades, feed))
  {
    if |trades| > 0 {
      var n := |trades| - 1;
      TotalsReconcile(trades[..n], feed);
      assert MarkAll(trades, feed)[..n] == MarkAll(trades[..n], feed);
    }
  }

  /** The loop over the selected account's open trades (Active tab): it
      values every position and accumulates evaluation amount, net P&L and
      fee. */
  method SummarizeOpenPositions(open: seq<Trade>, feed: string -> Option<real>)
    returns (totalEval: real, totalNet: real, totalFee: real, marks: seq<Mark>)
    ensures marks == MarkAll(open, feed)
    ensures totalEval == SumEval(marks) && totalNet == SumNet(marks) && totalFee == SumFee(marks)
    ensures totalFee == FeeRate * totalEval && totalNet == totalEval - Invested(open) - totalFee
  {
    totalEval, totalNet, totalFee := 0.0, 0.0, 0.0;
    marks := [];
    var i := 0;
    while i < |open|
      invariant 0 <= i <= |open|
      invariant marks == MarkAll(open[..i], feed)
      invariant totalEval == SumEval(marks) && totalNet == SumNet(marks) && totalFee == SumFee(marks)
    {
      var t := open[i];
      var price := ValuationPrice(t, feed);
      var qty := t.quantity;
      var entryPrice := t.entryPrice;
      var evalAmt := price * qty as real;
      var fee := evalAmt * FeeRate;
      var grossPnl := price * qty as real - entryPrice * qty as real;
      var netPnl := grossPnl - fee;
      var m := Mark(t.tradeId, price, evalAmt, fee, netPnl);
      assert m == MarkPosition(t, feed);
      SumsSnoc(marks, m);
      totalEval := totalEval + evalAmt;
      totalNet := totalNet + netPnl;
      totalFee := totalFee + fee;
      assert open[..i + 1][..i] == open[..i];
      marks := marks + [m];
      i := i + 1;
    }
    assert open[..i] == open;
    TotalsReconcile(open, feed);
  }

  /** Total return on the money invested, in percent; zero when nothing is
      invested. */
  function TotalRoi(totalBuy: real, totalNet: real): (r: real)
    ensures totalBuy <= 0.0 ==> r == 0.0
    ensures totalBuy > 0.0 ==> r * totalBuy == totalNet * 100.0
    ensures totalBuy > 0.0 ==> (r > 0.0 <==> totalNet > 0.0) && (r < 0.0 <==> totalNet < 0.0)
  {
    if totalBuy > 0.0 then
      var r := totalNet / totalBuy * 100.0;
      assert r * totalBuy == totalNet * 100.0;
      r
    else 0.0
  }

  /** The net P&L of a list of open positions, summed position by position. */
  function NetTotal(trades: seq<Trade>, feed: string -> Option<real>): real {
    if |trades| == 0 then 0.0
    else NetTotal(trades[..|trades| - 1], feed) + MarkPosition(trades[|trades| - 1], feed).netPnl
  }

  lemma NetTotalSnoc(trades: seq<Trade>, t: Trade, feed: string -> Option<real>)
    ensures NetTotal(trades + [t], feed) == NetTotal(trades, feed) + MarkPosition(t, feed).netPnl
  {
    assert (trades + [t])[..|trades|] == trades;
  }

  /** Summing the net P&L directly agrees with the total of the summary lines. */
  lemma {:induction false} NetTotalIsSumNet(trades: seq<Trade>, feed: string -> Option<real>)
    ensures NetTotal(trades, feed) == SumNet(MarkAll(trades, feed))
  {
    if |trades| > 0 {
      var n := |trades| - 1;
      NetTotalIsSumNet(trades[..n], feed);
      assert MarkAll(trades, feed)[..n] == MarkAll(trades[..n], feed);
    }
  }

  /** One row of the all-accounts loop adds its cost and its net P&L, in the
      forms that loop writes them. */
  lemma ActiveStep(prefix: seq<Trade>, t: Trade, feed: string -> Option<real>, cost: real, netPnl: real)
    requires cost == t.entryPrice * t.quantity as real
    requires var curr := ValuationPrice(t, feed);
      netPnl == (curr - t.entryPrice) * t.quantity as real - (curr * t.quantity as real) * FeeRate
    ensures Invested(prefix + [t]) == Invested(prefix) + cost
    ensures NetTotal(prefix + [t], feed) == NetTotal(prefix, feed) + netPnl
  {
    InvestedSnoc(prefix, t);
    NetTotalSnoc(prefix, t, feed);
    NetPnlForms(t, ValuationPrice(t, feed));
  }

  /** The loop of the all-accounts summary: it accumulates the money
      invested and the net P&L, and the ROI follows from the two totals. */
  method SummarizeActive(active: seq<Trade>, feed: string -> Option<real>)
    returns (totalBuy: real, totalNet: real, roi: real)
    ensures totalBuy == Invested(active)
    ensures totalNet == SumNet(MarkAll(active, feed))
    ensures roi == TotalRoi(totalBuy, totalNet)
  {
    totalBuy, totalNet := 0.0, 0.0;
    var i := 0;
    while i < |active|
      invariant 0 <= i <= |active|
      invariant totalBuy == Invested(active[..i])
      invariant totalNet == NetTotal(active[..i], feed)
    {
      var t := active[i];
      var curr := ValuationPrice(t, feed);
      var entry := t.entryPrice;
      var qty := t.quantity;
      var fee := (curr * qty as real) * FeeRate;
      var netPnl := ((curr - entry) * qty as real) - fee;
      assert active[..i + 1] == active[..i] + [t];
      ActiveStep(active[..i], t, feed, entry * qty as real, netPnl);
      totalBuy := totalBuy + entry * qty as real;
      totalNet := totalNet + netPnl;
      i := i + 1;
    }
    assert active[..i] == active;
    NetTotalIsSumNet(active, feed);
    roi := TotalRoi(totalBuy, totalNet);
  }

  /** The per-line return of the all-accounts summary, net P&L over cost in
      percent; the source divides without a guard, so a zero cost has no
      value here. */
  function PositionReturnPct(t: Trade, m: Mark): (r: Option<real>)
    ensures r.None? <==> Cost(t) == 0.0
    ensures r.Some? ==> r.value * Cost(t) == m.netPnl * 100.0
  {
    if Cost(t) == 0.0 then None
    else
      var pct := m.netPnl / Cost(t) * 100.0;
      assert pct * Cost(t) == m.netPnl * 100.0;
      Some(pct)
  }

  // --------------------------------------------------------------- R-multiple

  /** The unrounded R-multiple of an open position at price `curr`: the
      price move in units of the stop distance, zero without a stop
      distance. */
  function RawRMultiple(entry: real, sl: real, curr: real): (r: real)
    ensures Abs(entry - sl) == 0.0 ==> r == 0.0
    ensures Abs(entry - sl) != 0.0 ==> r * Abs(entry - sl) == curr - entry
  {
    var riskRange := Abs(entry - sl);
    if riskRange != 0.0 then (curr - entry) / riskRange else 0.0
  }

  /** At the entry the position stands at 0R; at the stop of a long
      position, at -1R. */
  lemma RMultipleLandmarks(entry: real, sl: real)
    ensures RawRMultiple(entry, sl, entry) == 0.0
    ensures sl < entry ==> RawRMultiple(entry, sl, sl) == -1.0
  {
    if sl < entry {
      assert Abs(entry - sl) == entry - sl;
      assert (sl - entry) / (entry - sl) == -1.0;
    }
  }

  /** The R-multiple `close_trade` stores is this R-multiple at the exit
      price, rounded. */
  lemma StoredRMultipleIsRoundedRaw(t: Trade, exitPrice: real, today: string)
    ensures ClosedRow(t, exitPrice, today).rMultiple == Round2(RawRMultiple(t.entryPrice, t.stopLoss, exitPrice))
  {
  }

  /** Entry 10,000, stop 9,200, price 10,500: 0.625R. */
  lemma RMultipleExample()
    ensures RawRMultiple(10000.0, 9200.0, 10500.0) == 0.625
    ensures ProgressValue(0.625) == 0.40625
  {
  }

  /** The progress bar: `(R + 1) / 4` clamped into [0, 1], so the stop (-1R)
      is empty and 3R is full. */
  function ProgressValue(r: real): (p: real)
    ensures 0.0 <= p <= 1.0
    ensures -1.0 <= r <= 3.0 ==> p * 4.0 == r + 1.0
    ensures r <= -1.0 ==> p == 0.0
    ensures r >= 3.0 ==> p == 1.0
  {
    var raw := (r + 1.0) / 4.0;
    var low := if raw > 0.0 then raw else 0.0;
    if low < 1.0 then low else 1.0
  }

  /** The progress bar never moves against the price. */
  lemma ProgressMonotone(r1: real, r2: real)
    requires r1 <= r2
    ensures ProgressValue(r1) <= ProgressValue(r2)
  {
  }
}
