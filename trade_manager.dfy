/** `TradeManager` of trade_logic.py: one object holding the Accounts and
    Trades tables. Every method changes the tables as the source's
    load-mutate-save sequence does, and the trade methods that realise or
    correct a P&L call `UpdateAccountBalance` just as the source calls
    `update_account_balance`. Storage, the clock and the market data are
    outside: the tables are fields, today's date is a parameter. */
module TradeLogic {
  import opened Wrappers
  import opened Numeric
  import opened Ledger

  class TradeManager {
    var accounts: seq<Account>
    var trades: seq<Trade>

    /** The manager over the two tables as storage holds them (empty on first use). */
    constructor (accounts: seq<Account>, trades: seq<Trade>)
      ensures this.accounts == accounts && this.trades == trades
    {
      this.accounts := accounts;
      this.trades := trades;
    }

    method AddAccount(name: string, broker: string, balance: real) returns (outcome: AccountOutcome)
      modifies this
      ensures trades == old(trades)
      ensures outcome == if HasAccount(old(accounts), name) then DuplicateAccount else Done
      ensures outcome == DuplicateAccount ==> accounts == old(accounts)
      ensures outcome == Done ==> accounts == old(accounts) + [Account(name, broker, Currency, balance, balance)]
      ensures UniqueAccountIds(old(accounts)) ==> UniqueAccountIds(accounts)
    {
      if HasAccount(accounts, name) {
        return DuplicateAccount;
      }
      ghost var before := accounts;
      accounts := accounts + [Account(name, broker, Currency, balance, balance)];
      if UniqueAccountIds(before) {
        AddAccountKeepsIdsUnique(before, Account(name, broker, Currency, balance, balance));
      }
      outcome := Done;
    }

    method DeleteAccount(id: string) returns (ok: bool)
      modifies this
      ensures ok
      ensures accounts == RemoveAccount(old(accounts), id) && trades == old(trades)
      ensures UniqueAccountIds(old(accounts)) ==> UniqueAccountIds(accounts)
    {
      ghost var before := accounts;
      accounts := RemoveAccount(accounts, id);
      if UniqueAccountIds(before) {
        RemoveAccountKeepsIdsUnique(before, id);
      }
      ok := true;
    }

    /** Rename an account and overwrite its balance. The trades move to the
        new id before the account row is renamed; the balance is set outright,
        not adjusted. */
    method UpdateAccount(oldId: string, newId: string, newBalance: real) returns (outcome: AccountOutcome)
      modifies this
      ensures outcome == AccountNotFound <==> !HasAccount(old(accounts), oldId)
      ensures outcome == DuplicateAccount <==>
        HasAccount(old(accounts), oldId) && oldId != newId && HasAccount(old(accounts), newId)
      ensures outcome != Done ==> accounts == old(accounts) && trades == old(trades)
      ensures outcome == Done ==>
        && trades == RelabelTrades(old(trades), oldId, newId)
        && var i := FindAccount(old(accounts), oldId).value;
           accounts == old(accounts)[i := old(accounts)[i].(id := newId, currentBalance := newBalance)]
      ensures UniqueAccountIds(old(accounts)) ==> UniqueAccountIds(accounts)
    {
      var idx := FindAccount(accounts, oldId);
      if idx.None? {
        return AccountNotFound;
      }
      if oldId != newId && HasAccount(accounts, newId) {
        return DuplicateAccount;
      }
      if oldId != newId {
        UpdateTradesAccountId(oldId, newId);
      } else {
        assert RelabelTrades(trades, oldId, newId) == trades;
      }
      var i := idx.value;
      ghost var before := accounts;
      accounts := accounts[i := accounts[i].(id := newId, currentBalance := newBalance)];
      if UniqueAccountIds(before) {
        forall j, k | 0 <= j < k < |accounts| ensures accounts[j].id != accounts[k].id {
          if j != i && k != i {
            assert accounts[j] == before[j] && accounts[k] == before[k];
          } else if oldId != newId {
            assert !HasAccount(before, newId);
          } else {
            assert before[i].id == oldId == newId;
          }
        }
      }
      outcome := Done;
    }

    method UpdateTradesAccountId(oldId: string, newId: string)
      modifies this
      ensures trades == RelabelTrades(old(trades), oldId, newId) && accounts == old(accounts)
    {
      if |trades| > 0 {
        trades := RelabelTrades(trades, oldId, newId);
      }
    }

    /** Add `delta` to the balance of every row with this id; nothing happens
        when there is none. */
    method UpdateAccountBalance(id: string, delta: real)
      modifies this
      ensures accounts == CreditAccount(old(accounts), id, delta) && trades == old(trades)
      ensures !HasAccount(old(accounts), id) ==> accounts == old(accounts)
    {
      if |accounts| > 0 && HasAccount(accounts, id) {
        accounts := CreditAccount(accounts, id, delta);
      }
    }

    function GetTrades(accountId: Option<string>, status: Option<Status>): (r: seq<Trade>)
      reads this
      ensures forall t :: t in r <==> t in trades && Selected(t, accountId, status)
      ensures forall t :: multiset(r)[t] == if Selected(t, accountId, status) then multiset(trades)[t] else 0
    {
      SelectTrades(trades, accountId, status)
    }

    /** Append an Open trade whose TradeID is the row count plus one. */
    method AddTrade(ticket: TradeTicket, today: string) returns (ok: bool)
      modifies this
      ensures ok
      ensures trades == old(trades) + [NewTradeRow(NextTradeId(old(trades)), ticket, today)]
      ensures accounts == old(accounts)
    {
      var newId := |trades| + 1;
      trades := trades + [NewTradeRow(newId, ticket, today)];
      ok := true;
    }

    /** Close the first row with this TradeID at `exitPrice` and credit the
        realised P&L to its account. */
    method CloseTrade(tradeId: int, exitPrice: real, today: string) returns (ok: bool)
      modifies this
      ensures Step(ok, Tables(accounts, trades)) == CloseTradeStep(Tables(old(accounts), old(trades)), tradeId, exitPrice, today)
    {
      var idx := FindTrade(trades, tradeId);
      if idx.None? {
        return false;
      }
      var i := idx.value;
      var row := trades[i];
      var entry := row.entryPrice;
      var qty := row.quantity;
      var sl := row.stopLoss;
      var pnl := (exitPrice - entry) * qty as real;
      var riskDist := Abs(entry - sl);
      var rMult := if riskDist != 0.0 then (exitPrice - entry) / riskDist else 0.0;
      assert pnl == RealisedPnl(row, exitPrice) && rMult == CloseR(row, exitPrice);
      var closed := row.(status := Closed, exitPrice := exitPrice, exitDate := today,
                         pnl := pnl, rMultiple := Round2(rMult));
      assert closed == ClosedRow(row, exitPrice, today);
      trades := trades[i := closed];
      UpdateAccountBalance(row.accountId, pnl);
      ok := true;
    }

    /** Remove every row with this TradeID, first reversing the P&L of the
        first one if it is Closed with a non-zero P&L. */
    method DeleteTrade(tradeId: int) returns (ok: bool)
      modifies this
      ensures Step(ok, Tables(accounts, trades)) == DeleteTradeStep(Tables(old(accounts), old(trades)), tradeId)
    {
      var idx := FindTrade(trades, tradeId);
      if idx.Some? {
        RefundRow(trades[idx.value]);
      }
      trades := RemoveTrades(trades, tradeId);
      ok := true;
    }

    /** The balance half of `delete_trade`: a Closed row with a non-zero P&L
        takes that P&L back from its account. */
    method RefundRow(row: Trade)
      modifies this
      ensures accounts == RefundClosed(old(accounts), row) && trades == old(trades)
    {
      if row.status == Closed {
        var pnl := row.pnl;
        if pnl != 0.0 {
          UpdateAccountBalance(row.accountId, -pnl);
        }
      }
    }

    /** Write a patch to the first row with this TradeID, adjusting the
        account first when the patch carries a P&L. */
    method UpdateTrade(tradeId: int, updates: seq<FieldUpdate>) returns (ok: bool)
      modifies this
      ensures Step(ok, Tables(accounts, trades)) == UpdateTradeStep(Tables(old(accounts), old(trades)), tradeId, updates)
    {
      var idx := FindTrade(trades, tradeId);
      if idx.None? {
        return false;
      }
      var i := idx.value;
      var row := trades[i];
      CorrectPnl(row, updates);
      var patched := PatchRow(row, updates);
      trades := trades[i := patched];
      ok := true;
    }

    /** The balance half of `update_trade`: with a P&L in the patch, the
        difference to the row's stored P&L goes to its account, unless it is
        zero. */
    method CorrectPnl(row: Trade, updates: seq<FieldUpdate>)
      modifies this
      ensures accounts == PnlCorrection(old(accounts), row, updates) && trades == old(trades)
    {
      var newPnl := PatchPnl(updates);
      if newPnl.Some? {
        var diff := PnlDifference(newPnl.value, row);
        if diff != 0.0 {
          UpdateAccountBalance(row.accountId, diff);
        }
      }
    }
  }

  /** The loop of `update_trade` over the patch, writing each entry into the
      row in turn. */
  method PatchRow(row: Trade, updates: seq<FieldUpdate>) returns (r: Trade)
    ensures r == ApplyPatch(row, updates)
  {
    r := row;
    var k := 0;
    while k < |updates|
      invariant 0 <= k <= |updates|
      invariant r == ApplyPatch(row, updates[..k])
    {
      assert updates[..k + 1][..k] == updates[..k];
      r := ApplyField(r, updates[k]);
      k := k + 1;
    }
    assert updates[..k] == updates;
  }
}
