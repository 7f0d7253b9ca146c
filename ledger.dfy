/** The two tables of the trading journal, Accounts and Trades, as in-memory
    sequences of typed rows, and the pure operations the ledger performs on
    them. Each mutation in the source loads a table, changes rows and saves it
    back; the functions here give the table after such a change, and the
    `*Step` functions give both tables after a whole ledger operation,
    including its call back into the account ledger. */
module Ledger {
  import opened Wrappers
  import opened Numeric

  datatype Status = Open | Closed

  datatype Account = Account(
    id: string,
    broker: string,
    currency: string,
    initialBalance: real,
    currentBalance: real)

  datatype Trade = Trade(
    tradeId: int,
    accountId: string,
    symbol: string,
    entryDate: string,
    strategy: string,
    trendScore: int,
    entryPrice: real,
    stopLoss: real,
    quantity: int,
    unitQuantity: int,
    riskAmount: int,
    status: Status,
    exitDate: string,
    exitPrice: real,
    pnl: real,
    rMultiple: real)

  /** The arguments of `add_trade`. A missing entry date is `None` (or the
      empty string, both falsy in the source) and becomes today's date. */
  datatype TradeTicket = TradeTicket(
    accountId: string,
    symbol: string,
    strategy: string,
    trendScore: int,
    entry: real,
    sl: real,
    qty: int,
    unitQty: int,
    risk: real,
    entryDate: Option<string>)

  datatype Tables = Tables(accounts: seq<Account>, trades: seq<Trade>)

  /** What a trade operation reports, and both tables afterwards. */
  datatype Step = Step(ok: bool, tables: Tables)

  /** Results of `add_account` and `update_account`. */
  datatype AccountOutcome = Done | DuplicateAccount | AccountNotFound

  const Currency: string := "KRW"

  // ---------------------------------------------------------------- Accounts

  predicate HasAccount(accounts: seq<Account>, id: string) {
    exists i :: 0 <= i < |accounts| && accounts[i].id == id
  }

  /** The invariant `add_account` and `update_account` guard: no two rows
      share an AccountID. */
  predicate UniqueAccountIds(accounts: seq<Account>) {
    forall i, j :: 0 <= i < j < |accounts| ==> accounts[i].id != accounts[j].id
  }

  /** The index of the first row with this AccountID (`df[...].index[0]`). */
  function FindAccount(accounts: seq<Account>, id: string): (r: Option<nat>)
    ensures r.None? <==> !HasAccount(accounts, id)
    ensures r.Some? ==> r.value < |accounts| && accounts[r.value].id == id
    ensures r.Some? ==> forall j :: 0 <= j < r.value ==> accounts[j].id != id
  {
    if |accounts| == 0 then None
    else if accounts[0].id == id then Some(0)
    else match FindAccount(accounts[1..], id)
      case None =>
        assert forall j :: 0 < j < |accounts| ==> accounts[j] == accounts[1..][j - 1];
        None
      case Some(k) => Some(k + 1)
  }

  /** The CurrentBalance of the first row with this AccountID. */
  function Balance(accounts: seq<Account>, id: string): (r: Option<real>)
    ensures r.Some? <==> HasAccount(accounts, id)
  {
    match FindAccount(accounts, id)
    case None => None
    case Some(i) => Some(accounts[i].currentBalance)
  }

  function Credited(a: Account, delta: real): Account {
    a.(currentBalance := a.currentBalance + delta)
  }

  /** `update_account_balance`: every row with this AccountID has `delta`
      added to its CurrentBalance; nothing else changes. */
  function CreditAccount(accounts: seq<Account>, id: string, delta: real): (r: seq<Account>)
    ensures |r| == |accounts|
    ensures forall i :: 0 <= i < |r| ==>
      r[i] == if accounts[i].id == id then Credited(accounts[i], delta) else accounts[i]
  {
    if |accounts| == 0 then []
    else
      var last := accounts[|accounts| - 1];
      CreditAccount(accounts[..|accounts| - 1], id, delta) + [if last.id == id then Credited(last, delta) else last]
  }

  /** `delete_account`: the rows with this AccountID are dropped and the others
      keep their order; the account's trades are not touched. */
  function RemoveAccount(accounts: seq<Account>, id: string): (r: seq<Account>)
    ensures forall a :: multiset(r)[a] == if a.id == id then 0 else multiset(accounts)[a]
    ensures !HasAccount(r, id)
  {
    if |accounts| == 0 then []
    else
      var n := |accounts| - 1;
      assert accounts == accounts[..n] + [accounts[n]];
      var rest := RemoveAccount(accounts[..n], id);
      assert !HasAccount(rest, id) by {
        forall k | 0 <= k < |rest| ensures rest[k].id != id {
          assert rest[k] in multiset(rest);
        }
      }
      if accounts[n].id == id then rest else rest + [accounts[n]]
  }

  /** `RemoveAccount` brings in no id the table did not hold. */
  lemma {:induction false} RemoveAccountAddsNoId(accounts: seq<Account>, id: string, x: string)
    requires !HasAccount(accounts, x)
    ensures !HasAccount(RemoveAccount(accounts, id), x)
  {
    if |accounts| > 0 {
      var n := |accounts| - 1;
      assert !HasAccount(accounts[..n], x) by {
        forall j | 0 <= j < n ensures accounts[..n][j].id != x {
          assert accounts[..n][j] == accounts[j];
        }
      }
      RemoveAccountAddsNoId(accounts[..n], id, x);
    }
  }

  /** Dropping rows cannot make two AccountIDs collide. */
  lemma {:induction false} RemoveAccountKeepsIdsUnique(accounts: seq<Account>, id: string)
    requires UniqueAccountIds(accounts)
    ensures UniqueAccountIds(RemoveAccount(accounts, id))
  {
    if |accounts| > 0 {
      var n := |accounts| - 1;
      var init := accounts[..n];
      var last := accounts[n];
      var rest := RemoveAccount(init, id);
      RemoveAccountKeepsIdsUnique(init, id);
      if last.id != id {
        assert !HasAccount(init, last.id) by {
          forall j | 0 <= j < n ensures init[j].id != last.id {
            assert init[j] == accounts[j];
          }
        }
        RemoveAccountAddsNoId(init, id, last.id);
        assert RemoveAccount(accounts, id) == rest + [last];
        AddAccountKeepsIdsUnique(rest, last);
      }
    }
  }

  /** `add_account`, given a fresh id, keeps the ids unique. */
  lemma AddAccountKeepsIdsUnique(accounts: seq<Account>, a: Account)
    requires UniqueAccountIds(accounts) && !HasAccount(accounts, a.id)
    ensures UniqueAccountIds(accounts + [a])
  {
    var r := accounts + [a];
    forall i, j | 0 <= i < j < |r| ensures r[i].id != r[j].id {
      assert r[i] == accounts[i];
      if j < |accounts| {
        assert r[j] == accounts[j];
      }
    }
  }

  // ------------------------------------------------------------------ Trades

  predicate HasTrade(trades: seq<Trade>, id: int) {
    exists i :: 0 <= i < |trades| && trades[i].tradeId == id
  }

  /** The index of the first row with this TradeID (`df[...].index[0]`). */
  function FindTrade(trades: seq<Trade>, id: int): (r: Option<nat>)
    ensures r.None? <==> !HasTrade(trades, id)
    ensures r.Some? ==> r.value < |trades| && trades[r.value].tradeId == id
    ensures r.Some? ==> forall j :: 0 <= j < r.value ==> trades[j].tradeId != id
  {
    if |trades| == 0 then None
    else if trades[0].tradeId == id then Some(0)
    else match FindTrade(trades[1..], id)
      case None =>
        assert forall j :: 0 < j < |trades| ==> trades[j] == trades[1..][j - 1];
        None
      case Some(k) => Some(k + 1)
  }

  /** `_update_trades_account_id`: every trade under `from` moves to `to`;
      every other trade and every other column is left alone. */
  function RelabelTrades(trades: seq<Trade>, from: string, to: string): (r: seq<Trade>)
    ensures |r| == |trades|
    ensures forall i :: 0 <= i < |r| ==>
      r[i] == if trades[i].accountId == from then trades[i].(accountId := to) else trades[i]
  {
    if |trades| == 0 then []
    else
      var last := trades[|trades| - 1];
      RelabelTrades(trades[..|trades| - 1], from, to) + [if last.accountId == from then last.(accountId := to) else last]
  }

  /** The row filter of `get_trades`: a filter value that is missing or empty
      (falsy in the source) does not filter. */
  predicate Selected(t: Trade, accountId: Option<string>, status: Option<Status>) {
    && (accountId.None? || accountId.value == "" || t.accountId == accountId.value)
    && (status.None? || t.status == status.value)
  }

  /** `get_trades`: the rows that pass the filter, in table order. */
  function SelectTrades(trades: seq<Trade>, accountId: Option<string>, status: Option<Status>): (r: seq<Trade>)
    ensures forall t :: multiset(r)[t] == if Selected(t, accountId, status) then multiset(trades)[t] else 0
    ensures forall t :: t in r <==> t in trades && Selected(t, accountId, status)
  {
    if |trades| == 0 then []
    else
      var n := |trades| - 1;
      assert trades == trades[..n] + [trades[n]];
      SelectTrades(trades[..n], accountId, status) + (if Selected(trades[n], accountId, status) then [trades[n]] else [])
  }

  /** The filter at the end of `delete_trade`: every row with this TradeID
      goes, the rest keep their order. */
  function RemoveTrades(trades: seq<Trade>, id: int): (r: seq<Trade>)
    ensures forall t :: multiset(r)[t] == if t.tradeId == id then 0 else multiset(trades)[t]
    ensures !HasTrade(r, id)
    ensures !HasTrade(trades, id) ==> r == trades
  {
    if |trades| == 0 then []
    else
      var n := |trades| - 1;
      assert trades == trades[..n] + [trades[n]];
      assert multiset(trades) == multiset(trades[..n]) + multiset{trades[n]};
      var rest := RemoveTrades(trades[..n], id);
      assert !HasTrade(rest, id) by {
        forall k | 0 <= k < |rest| ensures rest[k].tradeId != id {
          assert rest[k] in multiset(rest);
        }
      }
      if trades[n].tradeId == id then rest else rest + [trades[n]]
  }

  /** The TradeID `add_trade` hands out: one more than the current row count. */
  function NextTradeId(trades: seq<Trade>): int {
    |trades| + 1
  }

  /** The row `add_trade` appends: Open, with exit price, P&L and R-multiple
      zero, no exit date, and the risk truncated to a whole amount. */
  function NewTradeRow(id: int, ticket: TradeTicket, today: string): (t: Trade)
    ensures t.tradeId == id && t.accountId == ticket.accountId && t.symbol == ticket.symbol
    ensures t.strategy == ticket.strategy && t.trendScore == ticket.trendScore
    ensures t.status == Open && t.exitDate == "" && t.exitPrice == 0.0 && t.pnl == 0.0 && t.rMultiple == 0.0
    ensures t.entryPrice == ticket.entry && t.stopLoss == ticket.sl && t.quantity == ticket.qty
    ensures t.unitQuantity == ticket.unitQty && t.riskAmount == Trunc(ticket.risk)
    ensures t.entryDate == (if ticket.entryDate.Some? && ticket.entryDate.value != "" then ticket.entryDate.value else today)
  {
    var entryDate := match ticket.entryDate
      case Some(d) => if d != "" then d else today
      case None => today;
    Trade(id, ticket.accountId, ticket.symbol, entryDate, ticket.strategy, ticket.trendScore,
          ticket.entry, ticket.sl, ticket.qty, ticket.unitQty, Trunc(ticket.risk),
          Open, "", 0.0, 0.0, 0.0)
  }

  /** The unrounded R-multiple of a close: price move over the stop distance,
      zero when the stop distance is zero. */
  function CloseR(t: Trade, exitPrice: real): (r: real)
    ensures Abs(t.entryPrice - t.stopLoss) == 0.0 ==> r == 0.0
    ensures Abs(t.entryPrice - t.stopLoss) != 0.0 ==> r * Abs(t.entryPrice - t.stopLoss) == exitPrice - t.entryPrice
  {
    var riskDist := Abs(t.entryPrice - t.stopLoss);
    if riskDist != 0.0 then (exitPrice - t.entryPrice) / riskDist else 0.0
  }

  /** The P&L `close_trade` realises: price move times quantity. */
  function RealisedPnl(t: Trade, exitPrice: real): real {
    (exitPrice - t.entryPrice) * t.quantity as real
  }

  /** A long position with shares gains exactly when the exit is above the
      entry and breaks even exactly at the entry; without shares nothing is
      realised. */
  lemma RealisedPnlSign(t: Trade, exitPrice: real)
    ensures t.quantity > 0 ==> (RealisedPnl(t, exitPrice) > 0.0 <==> exitPrice > t.entryPrice)
    ensures t.quantity > 0 ==> (RealisedPnl(t, exitPrice) == 0.0 <==> exitPrice == t.entryPrice)
    ensures t.quantity == 0 ==> RealisedPnl(t, exitPrice) == 0.0
  {
    ProductSign(exitPrice - t.entryPrice, t.quantity as real);
  }

  /** The sign of a product with a positive factor is the sign of the other factor. */
  lemma ProductSign(d: real, q: real)
    ensures q > 0.0 ==> (d * q > 0.0 <==> d > 0.0)
    ensures q > 0.0 ==> (d * q == 0.0 <==> d == 0.0)
    ensures q == 0.0 ==> d * q == 0.0
  {
    if q > 0.0 {
      if d > 0.0 { assert d * q > 0.0; }
      else if d < 0.0 { assert d * q < 0.0; }
    }
  }

  /** The row `close_trade` writes back. It does not look at the old status. */
  function ClosedRow(t: Trade, exitPrice: real, today: string): (c: Trade)
    ensures c.status == Closed && c.exitPrice == exitPrice && c.exitDate == today
    ensures c.pnl == RealisedPnl(t, exitPrice)
    ensures c.rMultiple == Round2(CloseR(t, exitPrice))
    ensures c.tradeId == t.tradeId && c.accountId == t.accountId
    ensures c.entryPrice == t.entryPrice && c.stopLoss == t.stopLoss && c.quantity == t.quantity
    ensures c.symbol == t.symbol && c.entryDate == t.entryDate && c.strategy == t.strategy
    ensures c.trendScore == t.trendScore && c.unitQuantity == t.unitQuantity && c.riskAmount == t.riskAmount
  {
    t.(status := Closed,
       exitPrice := exitPrice,
       exitDate := today,
       pnl := RealisedPnl(t, exitPrice),
       rMultiple := Round2(CloseR(t, exitPrice)))
  }

  // ------------------------------------------------------------ Field patches

  /** The columns of the Trades table. */
  datatype Column =
    | TradeIdCol | AccountIdCol | SymbolCol | EntryDateCol | StrategyCol | TrendScoreCol
    | EntryPriceCol | StopLossCol | QuantityCol | UnitQuantityCol | RiskAmountCol | StatusCol
    | ExitDateCol | ExitPriceCol | PnLCol | RMultipleCol

  /** A cell value of the Trades table. */
  datatype Cell = IntCell(i: int) | RealCell(r: real) | TextCell(s: string) | StatusCell(st: Status)

  /** One `key: value` entry of the patch `update_trade` receives. */
  datatype FieldUpdate =
    | SetTradeId(newTradeId: int)
    | SetAccountId(newAccountId: string)
    | SetSymbol(newSymbol: string)
    | SetEntryDate(newEntryDate: string)
    | SetStrategy(newStrategy: string)
    | SetTrendScore(newTrendScore: int)
    | SetEntryPrice(newEntryPrice: real)
    | SetStopLoss(newStopLoss: real)
    | SetQuantity(newQuantity: int)
    | SetUnitQuantity(newUnitQuantity: int)
    | SetRiskAmount(newRiskAmount: int)
    | SetStatus(newStatus: Status)
    | SetExitDate(newExitDate: string)
    | SetExitPrice(newExitPrice: real)
    | SetPnL(newPnl: real)
    | SetRMultiple(newRMultiple: real)

  function Key(u: FieldUpdate): Column {
    match u
    case SetTradeId(_) => TradeIdCol
    case SetAccountId(_) => AccountIdCol
    case SetSymbol(_) => SymbolCol
    case SetEntryDate(_) => EntryDateCol
    case SetStrategy(_) => StrategyCol
    case SetTrendScore(_) => TrendScoreCol
    case SetEntryPrice(_) => EntryPriceCol
    case SetStopLoss(_) => StopLossCol
    case SetQuantity(_) => QuantityCol
    case SetUnitQuantity(_) => UnitQuantityCol
    case SetRiskAmount(_) => RiskAmountCol
    case SetStatus(_) => StatusCol
    case SetExitDate(_) => ExitDateCol
    case SetExitPrice(_) => ExitPriceCol
    case SetPnL(_) => PnLCol
    case SetRMultiple(_) => RMultipleCol
  }

  function NewValue(u: FieldUpdate): Cell {
    match u
    case SetTradeId(v) => IntCell(v)
    case SetAccountId(v) => TextCell(v)
    case SetSymbol(v) => TextCell(v)
    case SetEntryDate(v) => TextCell(v)
    case SetStrategy(v) => TextCell(v)
    case SetTrendScore(v) => IntCell(v)
    case SetEntryPrice(v) => RealCell(v)
    case SetStopLoss(v) => RealCell(v)
    case SetQuantity(v) => IntCell(v)
    case SetUnitQuantity(v) => IntCell(v)
    case SetRiskAmount(v) => IntCell(v)
    case SetStatus(v) => StatusCell(v)
    case SetExitDate(v) => TextCell(v)
    case SetExitPrice(v) => RealCell(v)
    case SetPnL(v) => RealCell(v)
    case SetRMultiple(v) => RealCell(v)
  }

  /** `row[column]`. */
  function CellOf(t: Trade, c: Column): Cell {
    match c
    case TradeIdCol => IntCell(t.tradeId)
    case AccountIdCol => TextCell(t.accountId)
    case SymbolCol => TextCell(t.symbol)
    case EntryDateCol => TextCell(t.entryDate)
    case StrategyCol => TextCell(t.strategy)
    case TrendScoreCol => IntCell(t.trendScore)
    case EntryPriceCol => RealCell(t.entryPrice)
    case StopLossCol => RealCell(t.stopLoss)
    case QuantityCol => IntCell(t.quantity)
    case UnitQuantityCol => IntCell(t.unitQuantity)
    case RiskAmountCol => IntCell(t.riskAmount)
    case StatusCol => StatusCell(t.status)
    case ExitDateCol => TextCell(t.exitDate)
    case ExitPriceCol => RealCell(t.exitPrice)
    case PnLCol => RealCell(t.pnl)
    case RMultipleCol => RealCell(t.rMultiple)
  }

  /** `df.at[idx, key] = val`: the named cell takes the value verbatim and no
      other cell changes. */
  function ApplyField(t: Trade, u: FieldUpdate): (r: Trade)
    ensures CellOf(r, Key(u)) == NewValue(u)
    ensures forall c :: c != Key(u) ==> CellOf(r, c) == CellOf(t, c)
  {
    match u
    case SetTradeId(v) => t.(tradeId := v)
    case SetAccountId(v) => t.(accountId := v)
    case SetSymbol(v) => t.(symbol := v)
    case SetEntryDate(v) => t.(entryDate := v)
    case SetStrategy(v) => t.(strategy := v)
    case SetTrendScore(v) => t.(trendScore := v)
    case SetEntryPrice(v) => t.(entryPrice := v)
    case SetStopLoss(v) => t.(stopLoss := v)
    case SetQuantity(v) => t.(quantity := v)
    case SetUnitQuantity(v) => t.(unitQuantity := v)
    case SetRiskAmount(v) => t.(riskAmount := v)
    case SetStatus(v) => t.(status := v)
    case SetExitDate(v) => t.(exitDate := v)
    case SetExitPrice(v) => t.(exitPrice := v)
    case SetPnL(v) => t.(pnl := v)
    case SetRMultiple(v) => t.(rMultiple := v)
  }

  /** The value a patch gives a column: that of its last entry for the column,
      as a dict built from these entries would hold it. */
  function PatchValue(patch: seq<FieldUpdate>, c: Column): Option<Cell> {
    if |patch| == 0 then None
    else if Key(patch[|patch| - 1]) == c then Some(NewValue(patch[|patch| - 1]))
    else PatchValue(patch[..|patch| - 1], c)
  }

  /** `updates['PnL']` when `'PnL' in updates`. */
  function PatchPnl(patch: seq<FieldUpdate>): Option<real> {
    if |patch| == 0 then None
    else if patch[|patch| - 1].SetPnL? then Some(patch[|patch| - 1].newPnl)
    else PatchPnl(patch[..|patch| - 1])
  }

  /** `PatchPnl` is the value the patch gives the PnL column. */
  lemma {:induction false} PatchPnlIsPnLColumn(patch: seq<FieldUpdate>)
    ensures PatchPnl(patch).Some? <==> PatchValue(patch, PnLCol).Some?
    ensures PatchPnl(patch).Some? ==> PatchValue(patch, PnLCol) == Some(RealCell(PatchPnl(patch).value))
  {
    if |patch| > 0 && !patch[|patch| - 1].SetPnL? {
      PatchPnlIsPnLColumn(patch[..|patch| - 1]);
    }
  }

  /** The loop of `update_trade` over the patch: every patched column holds its
      patched value verbatim and every other column is unchanged, so nothing
      dependent (risk, P&L, R-multiple) is recomputed. */
  function ApplyPatch(t: Trade, patch: seq<FieldUpdate>): (r: Trade)
    ensures forall c :: CellOf(r, c) == match PatchValue(patch, c) case Some(v) => v case None => CellOf(t, c)
  {
    if |patch| == 0 then t
    else ApplyField(ApplyPatch(t, patch[..|patch| - 1]), patch[|patch| - 1])
  }

  // ------------------------------------------------------ Whole operations

  /** `close_trade` followed by its `update_account_balance` call. */
  function CloseTradeStep(b: Tables, id: int, exitPrice: real, today: string): (r: Step)
    ensures r.ok <==> HasTrade(b.trades, id)
    ensures !r.ok ==> r.tables == b
    ensures |r.tables.trades| == |b.trades|
    ensures forall j :: 0 <= j < |b.trades| ==> r.tables.trades[j].tradeId == b.trades[j].tradeId
  {
    match FindTrade(b.trades, id)
    case None => Step(false, b)
    case Some(i) =>
      var closed := ClosedRow(b.trades[i], exitPrice, today);
      Step(true, Tables(CreditAccount(b.accounts, closed.accountId, closed.pnl), b.trades[i := closed]))
  }

  /** `update_trade`: when the patch carries a P&L, the owning account is first
      adjusted by the difference (skipped when it is zero), then the patch is
      written to the first row with this TradeID. */
  function UpdateTradeStep(b: Tables, id: int, patch: seq<FieldUpdate>): (r: Step)
    ensures r.ok <==> HasTrade(b.trades, id)
    ensures !r.ok ==> r.tables == b
    ensures PatchPnl(patch).None? ==> r.tables.accounts == b.accounts
    ensures |r.tables.trades| == |b.trades|
  {
    match FindTrade(b.trades, id)
    case None => Step(false, b)
    case Some(i) =>
      var t := b.trades[i];
      Step(true, Tables(PnlCorrection(b.accounts, t, patch), b.trades[i := ApplyPatch(t, patch)]))
  }

  /** The balance call of `update_trade` for row `t`: with a P&L in the patch,
      the difference to the row's P&L is credited to its account, unless it is
      zero. */
  function PnlCorrection(accounts: seq<Account>, t: Trade, patch: seq<FieldUpdate>): seq<Account> {
    match PatchPnl(patch)
    case None => accounts
    case Some(newPnl) =>
      var diff := PnlDifference(newPnl, t);
      if diff != 0.0 then CreditAccount(accounts, t.accountId, diff) else accounts
  }

  /** `delete_trade`: if the first row with this TradeID is Closed with a
      non-zero P&L, that P&L is taken back from its account; then every row
      with the TradeID is dropped. It always reports success. */
  function DeleteTradeStep(b: Tables, id: int): (r: Step)
    ensures r.ok
    ensures !HasTrade(r.tables.trades, id)
    ensures !HasTrade(b.trades, id) ==> r.tables == b
    ensures r.tables.trades == RemoveTrades(b.trades, id)
    ensures FindTrade(b.trades, id).Some? ==>
      r.tables.accounts == RefundClosed(b.accounts, b.trades[FindTrade(b.trades, id).value])
  {
    var accounts := match FindTrade(b.trades, id)
      case None => b.accounts
      case Some(i) => RefundClosed(b.accounts, b.trades[i]);
    Step(true, Tables(accounts, RemoveTrades(b.trades, id)))
  }

  /** The reversal `delete_trade` applies for the row it deletes: a Closed row
      with a non-zero P&L takes that P&L back from its account. */
  function RefundClosed(accounts: seq<Account>, t: Trade): seq<Account> {
    if t.status == Closed && t.pnl != 0.0 then CreditAccount(accounts, t.accountId, Reversal(t)) else accounts
  }

  /** The amount `delete_trade` hands to `update_account_balance`: minus the
      row's P&L. */
  function Reversal(t: Trade): real {
    -t.pnl
  }

  /** The amount `update_trade` hands to `update_account_balance`: the new
      P&L minus the stored one. */
  function PnlDifference(newPnl: real, t: Trade): real {
    newPnl - t.pnl
  }
}
