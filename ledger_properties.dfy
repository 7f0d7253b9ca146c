/** What the ledger operations promise about balances, trade rows and ids,
    proved over the step functions the `TradeManager` methods are verified
    against. */
module LedgerProperties {
  import opened Wrappers
  import opened Numeric
  import opened Ledger

  // ------------------------------------------------------------- lookups

  /** The first-row lookup depends only on the ids, row by row. */
  lemma {:induction false} FindAccountSameIds(a: seq<Account>, b: seq<Account>, id: string)
    requires |a| == |b|
    requires forall i :: 0 <= i < |a| ==> a[i].id == b[i].id
    ensures FindAccount(a, id) == FindAccount(b, id)
  {
    if |a| > 0 && a[0].id != id {
      assert forall i :: 0 <= i < |a| - 1 ==> a[1..][i].id == b[1..][i].id;
      FindAccountSameIds(a[1..], b[1..], id);
    }
  }

  lemma {:induction false} FindTradeSameIds(a: seq<Trade>, b: seq<Trade>, id: int)
    requires |a| == |b|
    requires forall i :: 0 <= i < |a| ==> a[i].tradeId == b[i].tradeId
    ensures FindTrade(a, id) == FindTrade(b, id)
  {
    if |a| > 0 && a[0].tradeId != id {
      var a', b' := a[1..], b[1..];
      forall i | 0 <= i < |a'|
        ensures a'[i].tradeId == b'[i].tradeId
      {
        assert a'[i] == a[i + 1] && b'[i] == b[i + 1];
      }
      FindTradeSameIds(a', b', id);
    }
  }

  // ------------------------------------------------------------- balances

  /** `update_account_balance` moves the account's balance by exactly `delta`. */
  lemma CreditMovesBalance(accounts: seq<Account>, id: string, delta: real)
    ensures HasAccount(CreditAccount(accounts, id, delta), id) <==> HasAccount(accounts, id)
    ensures HasAccount(accounts, id) ==>
      Balance(CreditAccount(accounts, id, delta), id).value == Balance(accounts, id).value + delta
  {
    var r := CreditAccount(accounts, id, delta);
    assert forall i :: 0 <= i < |accounts| ==> r[i].id == accounts[i].id;
    FindAccountSameIds(accounts, r, id);
    match FindAccount(accounts, id)
    case None =>
    case Some(i) =>
      assert r[i] == Credited(accounts[i], delta);
  }

  /** ... and leaves every other account's balance alone. */
  lemma CreditKeepsOtherBalances(accounts: seq<Account>, id: string, delta: real, other: string)
    requires other != id
    ensures Balance(CreditAccount(accounts, id, delta), other) == Balance(accounts, other)
  {
    var r := CreditAccount(accounts, id, delta);
    assert forall i :: 0 <= i < |accounts| ==> r[i].id == accounts[i].id;
    FindAccountSameIds(accounts, r, other);
    match FindAccount(accounts, other)
    case None =>
    case Some(i) =>
      assert r[i] == accounts[i];
  }

  /** For an unknown account it does nothing. */
  lemma CreditUnknownIsNoOp(accounts: seq<Account>, id: string, delta: real)
    requires !HasAccount(accounts, id)
    ensures CreditAccount(accounts, id, delta) == accounts
  {
    var r := CreditAccount(accounts, id, delta);
    forall i | 0 <= i < |r| ensures r[i] == accounts[i] {
      assert accounts[i].id != id;
    }
  }

  /** Two credits to the same account add up. */
  lemma CreditTwice(accounts: seq<Account>, id: string, p: real, q: real)
    requires HasAccount(accounts, id)
    ensures HasAccount(CreditAccount(CreditAccount(accounts, id, p), id, q), id)
    ensures Balance(CreditAccount(CreditAccount(accounts, id, p), id, q), id).value == Balance(accounts, id).value + p + q
  {
    var once := CreditAccount(accounts, id, p);
    CreditMovesBalance(accounts, id, p);
    CreditMovesBalance(once, id, q);
  }

  /** Crediting and then debiting the same amount gives back the table. */
  lemma CreditThenDebit(accounts: seq<Account>, id: string, delta: real)
    ensures CreditAccount(CreditAccount(accounts, id, delta), id, -delta) == accounts
  {
    var back := -delta;
    var twice := CreditAccount(CreditAccount(accounts, id, delta), id, back);
    forall i | 0 <= i < |accounts|
      ensures twice[i] == accounts[i]
    {
    }
    assert twice == accounts;
  }

  lemma CreditZero(accounts: seq<Account>, id: string)
    ensures CreditAccount(accounts, id, 0.0) == accounts
  {
  }

  // ---------------------------------------------------------------- close

  /** `close_trade` on the first row `i` with this id: that row becomes its
      closed form, whatever its status was, and no other row changes. */
  lemma CloseRewritesOneRow(b: Tables, id: int, exitPrice: real, today: string, i: nat)
    requires FindTrade(b.trades, id) == Some(i)
    ensures CloseTradeStep(b, id, exitPrice, today).tables.trades == b.trades[i := ClosedRow(b.trades[i], exitPrice, today)]
    ensures CloseTradeStep(b, id, exitPrice, today).tables.trades[i].pnl == RealisedPnl(b.trades[i], exitPrice)
  {
  }

  /** ... and the owning account's balance moves by exactly that row's P&L,
      `(exit - entry) * qty`, while every other balance stays. */
  lemma CloseCreditsPnl(b: Tables, id: int, exitPrice: real, today: string, i: nat, other: string)
    requires FindTrade(b.trades, id) == Some(i)
    ensures var t := b.trades[i];
      var after := CloseTradeStep(b, id, exitPrice, today).tables.accounts;
      HasAccount(b.accounts, t.accountId) ==>
        && HasAccount(after, t.accountId)
        && Balance(after, t.accountId).value == Balance(b.accounts, t.accountId).value + RealisedPnl(t, exitPrice)
    ensures var t := b.trades[i];
      var after := CloseTradeStep(b, id, exitPrice, today).tables.accounts;
      other != t.accountId ==> Balance(after, other) == Balance(b.accounts, other)
  {
    var t := b.trades[i];
    var d := ClosedRow(t, exitPrice, today).pnl;
    assert CloseTradeStep(b, id, exitPrice, today).tables.accounts == CreditAccount(b.accounts, t.accountId, d);
    CreditMovesBalance(b.accounts, t.accountId, d);
    if other != t.accountId {
      CreditKeepsOtherBalances(b.accounts, t.accountId, d, other);
    }
  }

  /** Because the status is not checked, closing the same trade twice at the
      same price credits its P&L twice. */
  lemma CloseTwiceCreditsTwice(b: Tables, id: int, exitPrice: real, today: string, i: nat)
    requires FindTrade(b.trades, id) == Some(i)
    ensures var t := b.trades[i];
      var once := CloseTradeStep(b, id, exitPrice, today).tables;
      var twice := CloseTradeStep(once, id, exitPrice, today).tables;
      HasAccount(b.accounts, t.accountId) ==>
        && HasAccount(twice.accounts, t.accountId)
        && Balance(twice.accounts, t.accountId).value == Balance(b.accounts, t.accountId).value + 2.0 * RealisedPnl(t, exitPrice)
  {
    var t := b.trades[i];
    var once := CloseTradeStep(b, id, exitPrice, today).tables;
    CloseAgain(b, once, id, exitPrice, today, i);
    if HasAccount(b.accounts, t.accountId) {
      CloseCreditsPnl(b, id, exitPrice, today, i, t.accountId);
      CloseCreditsPnl(once, id, exitPrice, today, i, t.accountId);
    }
  }

  /** After one close, the first row with the id is still row `i`, with the
      same owner and the same realised P&L at that price. */
  lemma CloseAgain(b: Tables, once: Tables, id: int, exitPrice: real, today: string, i: nat)
    requires FindTrade(b.trades, id) == Some(i)
    requires once == CloseTradeStep(b, id, exitPrice, today).tables
    ensures FindTrade(once.trades, id) == Some(i)
    ensures once.trades[i].accountId == b.trades[i].accountId
    ensures RealisedPnl(once.trades[i], exitPrice) == RealisedPnl(b.trades[i], exitPrice)
  {
    var c := ClosedRow(b.trades[i], exitPrice, today);
    CloseRewritesOneRow(b, id, exitPrice, today, i);
    assert once.trades[i] == c;
    SamePriceAndSizeSamePnl(c, b.trades[i], exitPrice);
    FindTradeSameIds(b.trades, once.trades, id);
  }

  /** The realised P&L reads only the entry price and the quantity. */
  lemma SamePriceAndSizeSamePnl(t: Trade, u: Trade, exitPrice: real)
    requires t.entryPrice == u.entryPrice && t.quantity == u.quantity
    ensures RealisedPnl(t, exitPrice) == RealisedPnl(u, exitPrice)
  {
  }

  // --------------------------------------------------------------- delete

  /** Deleting a trade id that is not in the table changes neither table and
      still reports success. */
  lemma DeleteMissingIsNoOp(b: Tables, id: int)
    requires !HasTrade(b.trades, id)
    ensures DeleteTradeStep(b, id) == Step(true, b)
  {
  }

  /** Deleting a trade whose first row is Open leaves every balance alone. */
  lemma DeleteOpenKeepsAccounts(b: Tables, id: int, i: nat)
    requires FindTrade(b.trades, id) == Some(i) && b.trades[i].status == Open
    ensures DeleteTradeStep(b, id).tables.accounts == b.accounts
  {
  }

  /** Deleting a trade whose first row is Closed takes that row's P&L back
      from its account's balance, and leaves every other balance alone. */
  lemma DeleteRefundsClosed(b: Tables, id: int, i: nat, other: string)
    requires FindTrade(b.trades, id) == Some(i) && b.trades[i].status == Closed
    ensures var t := b.trades[i];
      var after := DeleteTradeStep(b, id).tables.accounts;
      HasAccount(b.accounts, t.accountId) ==>
        && HasAccount(after, t.accountId)
        && Balance(after, t.accountId).value == Balance(b.accounts, t.accountId).value - t.pnl
    ensures var t := b.trades[i];
      var after := DeleteTradeStep(b, id).tables.accounts;
      other != t.accountId ==> Balance(after, other) == Balance(b.accounts, other)
  {
    RefundClosedBalances(b.accounts, b.trades[i], other);
  }

  /** The refund of a Closed row moves its account's balance by minus its
      P&L and no other balance. */
  lemma RefundClosedBalances(accounts: seq<Account>, t: Trade, other: string)
    requires t.status == Closed
    ensures HasAccount(accounts, t.accountId) ==>
      && HasAccount(RefundClosed(accounts, t), t.accountId)
      && Balance(RefundClosed(accounts, t), t.accountId).value == Balance(accounts, t.accountId).value - t.pnl
    ensures other != t.accountId ==> Balance(RefundClosed(accounts, t), other) == Balance(accounts, other)
  {
    var acc, pnl := t.accountId, t.pnl;
    var after := RefundClosed(accounts, t);
    if pnl != 0.0 {
      assert after == CreditAccount(accounts, acc, Reversal(t));
      CreditMovesBalance(accounts, acc, Reversal(t));
      if other != acc {
        CreditKeepsOtherBalances(accounts, acc, Reversal(t), other);
      }
    } else {
      assert after == accounts;
    }
  }

  /** Deleting keeps the other rows in their order: adding a row to the
      table adds it, last, to the result exactly when its TradeID differs. */
  lemma RemoveTradesSnoc(s: seq<Trade>, x: Trade, id: int)
    ensures RemoveTrades(s + [x], id) == RemoveTrades(s, id) + (if x.tradeId == id then [] else [x])
  {
    assert (s + [x])[..|s|] == s;
  }

  /** `delete_account` keeps the order of the remaining rows in the same way. */
  lemma RemoveAccountSnoc(s: seq<Account>, x: Account, id: string)
    ensures RemoveAccount(s + [x], id) == RemoveAccount(s, id) + (if x.id == id then [] else [x])
  {
    assert (s + [x])[..|s|] == s;
  }

  /** Deleting from a concatenation deletes from each part and keeps the parts
      in their order, so the rows that stay keep their relative order. */
  lemma {:induction false} RemoveTradesAppend(a: seq<Trade>, b: seq<Trade>, id: int)
    ensures RemoveTrades(a + b, id) == RemoveTrades(a, id) + RemoveTrades(b, id)
    decreases |b|
  {
    if |b| == 0 {
      assert a + b == a;
    } else {
      var n := |b| - 1;
      var x := b[n];
      var tail := if x.tradeId == id then [] else [x];
      assert a + b == (a + b[..n]) + [x];
      assert b == b[..n] + [x];
      RemoveTradesSnoc(a + b[..n], x, id);
      RemoveTradesSnoc(b[..n], x, id);
      RemoveTradesAppend(a, b[..n], id);
      AssocStep(RemoveTrades(a, id), RemoveTrades(b[..n], id), tail, RemoveTrades(a + b, id), RemoveTrades(b, id));
    }
  }

  /** `delete_account` keeps the remaining accounts in their order in the same way. */
  lemma {:induction false} RemoveAccountAppend(a: seq<Account>, b: seq<Account>, id: string)
    ensures RemoveAccount(a + b, id) == RemoveAccount(a, id) + RemoveAccount(b, id)
    decreases |b|
  {
    if |b| == 0 {
      assert a + b == a;
    } else {
      var n := |b| - 1;
      var x := b[n];
      var tail := if x.id == id then [] else [x];
      assert a + b == (a + b[..n]) + [x];
      assert b == b[..n] + [x];
      RemoveAccountSnoc(a + b[..n], x, id);
      RemoveAccountSnoc(b[..n], x, id);
      RemoveAccountAppend(a, b[..n], id);
      AssocStep(RemoveAccount(a, id), RemoveAccount(b[..n], id), tail, RemoveAccount(a + b, id), RemoveAccount(b, id));
    }
  }

  /** Regrouping a concatenation. */
  lemma AssocStep<T>(p: seq<T>, q: seq<T>, r: seq<T>, lhs: seq<T>, rhs: seq<T>)
    requires lhs == (p + q) + r && rhs == q + r
    ensures lhs == p + rhs
  {
  }

  /** Closing a trade and then deleting it gives back the Accounts table as it
      was before the close, and leaves no row with that id. */
  lemma CloseThenDeleteRestoresAccounts(b: Tables, id: int, exitPrice: real, today: string)
    ensures var closed := CloseTradeStep(b, id, exitPrice, today).tables;
      var deleted := DeleteTradeStep(closed, id).tables;
      deleted.accounts == b.accounts && !HasTrade(deleted.trades, id)
  {
    var closed := CloseTradeStep(b, id, exitPrice, today).tables;
    if HasTrade(b.trades, id) {
      var i := FindTrade(b.trades, id).value;
      var c := ClosedRow(b.trades[i], exitPrice, today);
      FindTradeSameIds(b.trades, closed.trades, id);
      assert closed.trades[i] == c;
      if c.pnl != 0.0 {
        CreditThenDebit(b.accounts, c.accountId, c.pnl);
      } else {
        CreditZero(b.accounts, c.accountId);
      }
    }
  }

  // --------------------------------------------------------------- update

  /** `update_trade` on the first row `i` with this id writes the patched row
      there and nowhere else; a patched P&L is held verbatim. */
  lemma UpdateRewritesOneRow(b: Tables, id: int, patch: seq<FieldUpdate>, i: nat)
    requires FindTrade(b.trades, id) == Some(i)
    ensures UpdateTradeStep(b, id, patch).tables.trades == b.trades[i := ApplyPatch(b.trades[i], patch)]
    ensures PatchPnl(patch).Some? ==> UpdateTradeStep(b, id, patch).tables.trades[i].pnl == PatchPnl(patch).value
  {
    if PatchPnl(patch).Some? {
      PatchPnlIsPnLColumn(patch);
      assert CellOf(ApplyPatch(b.trades[i], patch), PnLCol) == RealCell(PatchPnl(patch).value);
    }
  }

  /** With a P&L `p` in the patch, the owning account's balance moves by
      exactly `p` minus the row's old P&L, once, and the other balances stay. */
  lemma UpdatePnlAdjustsByDifference(b: Tables, id: int, patch: seq<FieldUpdate>, i: nat, other: string)
    requires FindTrade(b.trades, id) == Some(i) && PatchPnl(patch).Some?
    ensures var t := b.trades[i];
      var after := UpdateTradeStep(b, id, patch).tables.accounts;
      HasAccount(b.accounts, t.accountId) ==>
        && HasAccount(after, t.accountId)
        && Balance(after, t.accountId).value == Balance(b.accounts, t.accountId).value + (PatchPnl(patch).value - t.pnl)
    ensures var t := b.trades[i];
      var after := UpdateTradeStep(b, id, patch).tables.accounts;
      other != t.accountId ==> Balance(after, other) == Balance(b.accounts, other)
  {
    var t := b.trades[i];
    var diff := PnlDifference(PatchPnl(patch).value, t);
    var after := UpdateTradeStep(b, id, patch).tables.accounts;
    if diff != 0.0 {
      assert after == CreditAccount(b.accounts, t.accountId, diff);
      CreditMovesBalance(b.accounts, t.accountId, diff);
      if other != t.accountId {
        CreditKeepsOtherBalances(b.accounts, t.accountId, diff, other);
      }
    } else {
      assert after == b.accounts;
      if HasAccount(b.accounts, t.accountId) {
        assert Balance(b.accounts, t.accountId).value + diff == Balance(b.accounts, t.accountId).value;
      }
    }
  }

  /** Closing a trade and then correcting its P&L to `p` leaves the account
      balance at its pre-close value plus `p`: the correction replaces the
      realised amount instead of adding to it. */
  lemma CloseThenEditPnl(b: Tables, id: int, exitPrice: real, today: string, patch: seq<FieldUpdate>, i: nat)
    requires FindTrade(b.trades, id) == Some(i) && PatchPnl(patch).Some?
    ensures var t := b.trades[i];
      var closed := CloseTradeStep(b, id, exitPrice, today).tables;
      var edited := UpdateTradeStep(closed, id, patch).tables;
      HasAccount(b.accounts, t.accountId) ==>
        && HasAccount(edited.accounts, t.accountId)
        && Balance(edited.accounts, t.accountId).value == Balance(b.accounts, t.accountId).value + PatchPnl(patch).value
  {
    var t := b.trades[i];
    var pnl := RealisedPnl(t, exitPrice);
    var p := PatchPnl(patch).value;
    var closed := CloseTradeStep(b, id, exitPrice, today).tables;
    assert closed.accounts == CreditAccount(b.accounts, t.accountId, pnl);
    assert closed.trades[i] == ClosedRow(t, exitPrice, today);
    FindTradeSameIds(b.trades, closed.trades, id);
    var c := closed.trades[i];
    assert c.pnl == pnl && c.accountId == t.accountId;
    CloseCreditsPnl(b, id, exitPrice, today, i, t.accountId);
    UpdatePnlAdjustsByDifference(closed, id, patch, i, t.accountId);
  }

  // --------------------------------------------------------------- rename

  /** The trade `_update_trades_account_id` makes of one row. */
  function Relabelled(t: Trade, from: string, to: string): Trade {
    if t.accountId == from then t.(accountId := to) else t
  }

  lemma RelabelSnoc(init: seq<Trade>, x: Trade, from: string, to: string)
    ensures RelabelTrades(init + [x], from, to) == RelabelTrades(init, from, to) + [Relabelled(x, from, to)]
  {
    assert (init + [x])[..|init|] == init;
  }

  /** `get_trades` keeps table order: appending a row appends it to the selection exactly when it matches. */
  lemma SelectSnoc(init: seq<Trade>, x: Trade, accountId: Option<string>, status: Option<Status>)
    ensures SelectTrades(init + [x], accountId, status)
         == SelectTrades(init, accountId, status) + (if Selected(x, accountId, status) then [x] else [])
  {
    assert (init + [x])[..|init|] == init;
  }

  /** `get_trades` on a concatenation is the concatenation of the two queries:
      the selected rows keep their relative order. */
  lemma {:induction false} SelectAppend(a: seq<Trade>, b: seq<Trade>, accountId: Option<string>, status: Option<Status>)
    ensures SelectTrades(a + b, accountId, status) == SelectTrades(a, accountId, status) + SelectTrades(b, accountId, status)
    decreases |b|
  {
    if |b| == 0 {
      assert a + b == a;
    } else {
      var n := |b| - 1;
      var x := b[n];
      var tail := if Selected(x, accountId, status) then [x] else [];
      assert a + b == (a + b[..n]) + [x];
      assert b == b[..n] + [x];
      SelectSnoc(a + b[..n], x, accountId, status);
      SelectSnoc(b[..n], x, accountId, status);
      SelectAppend(a, b[..n], accountId, status);
      AssocStep(SelectTrades(a, accountId, status), SelectTrades(b[..n], accountId, status), tail,
                SelectTrades(a + b, accountId, status), SelectTrades(b, accountId, status));
    }
  }

  /** Renaming A to B moves every trade under A to B: `get_trades(B)`
      afterwards is the trades that were under A, in order, with the new id,
      provided no trade was under B already (orphans of a deleted account B
      would join them). */
  lemma {:induction false} RenameMovesTrades(trades: seq<Trade>, a: string, b: string)
    requires a != "" && b != ""
    requires forall t :: t in trades ==> t.accountId != b
    ensures SelectTrades(RelabelTrades(trades, a, b), Some(b), None)
         == RelabelTrades(SelectTrades(trades, Some(a), None), a, b)
  {
    if |trades| > 0 {
      var n := |trades| - 1;
      var init, x := trades[..n], trades[n];
      assert trades == init + [x];
      assert forall t :: t in init ==> t in trades;
      RenameMovesTrades(init, a, b);
      RelabelSnoc(init, x, a, b);
      SelectSnoc(RelabelTrades(init, a, b), Relabelled(x, a, b), Some(b), None);
      SelectSnoc(init, x, Some(a), None);
      var sel := SelectTrades(init, Some(a), None);
      var x' := Relabelled(x, a, b);
      if x.accountId == a {
        assert Selected(x', Some(b), None) && Selected(x, Some(a), None);
        RelabelSnoc(sel, x, a, b);
        assert SelectTrades(trades, Some(a), None) == sel + [x];
      } else {
        assert x' == x && x in trades;
        assert !Selected(x, Some(b), None) && !Selected(x, Some(a), None);
        assert SelectTrades(trades, Some(a), None) == sel + [] == sel;
      }
    }
  }

  /** ... and nothing is left under A. */
  lemma {:induction false} RenameEmptiesOldAccount(trades: seq<Trade>, a: string, b: string)
    requires a != "" && a != b
    ensures SelectTrades(RelabelTrades(trades, a, b), Some(a), None) == []
  {
    if |trades| > 0 {
      var n := |trades| - 1;
      var init, x := trades[..n], trades[n];
      assert trades == init + [x];
      RenameEmptiesOldAccount(init, a, b);
      RelabelSnoc(init, x, a, b);
      SelectSnoc(RelabelTrades(init, a, b), Relabelled(x, a, b), Some(a), None);
    }
  }

  // ------------------------------------------------------------ trade ids

  predicate SequentialIds(trades: seq<Trade>) {
    forall i :: 0 <= i < |trades| ==> trades[i].tradeId == i + 1
  }

  /** Appending with `add_trade` keeps ids equal to row numbers. */
  lemma AddKeepsSequentialIds(trades: seq<Trade>, ticket: TradeTicket, today: string)
    requires SequentialIds(trades)
    ensures SequentialIds(trades + [NewTradeRow(NextTradeId(trades), ticket, today)])
  {
  }

  function CountId(trades: seq<Trade>, id: int): nat {
    if |trades| == 0 then 0
    else CountId(trades[..|trades| - 1], id) + (if trades[|trades| - 1].tradeId == id then 1 else 0)
  }

  lemma {:induction false} RemoveTradesLength(trades: seq<Trade>, id: int)
    ensures |RemoveTrades(trades, id)| == |trades| - CountId(trades, id)
  {
    if |trades| > 0 {
      RemoveTradesLength(trades[..|trades| - 1], id);
    }
  }

  lemma {:induction false} SequentialCount(trades: seq<Trade>, id: int)
    requires SequentialIds(trades)
    ensures CountId(trades, id) == if 1 <= id <= |trades| then 1 else 0
  {
    if |trades| > 0 {
      var n := |trades| - 1;
      assert SequentialIds(trades[..n]);
      SequentialCount(trades[..n], id);
    }
  }

  /** Ids are not collision-safe: in a table whose ids are 1..n, deleting any
      trade but the last makes the next `add_trade` hand out id n again,
      which the last row still holds. */
  lemma IdReuseAfterDelete(trades: seq<Trade>, k: int)
    requires SequentialIds(trades) && 1 <= k < |trades|
    ensures var rest := RemoveTrades(trades, k);
      NextTradeId(rest) == |trades| && HasTrade(rest, |trades|)
  {
    var rest := RemoveTrades(trades, k);
    RemoveTradesLength(trades, k);
    SequentialCount(trades, k);
    var last := trades[|trades| - 1];
    assert last in multiset(trades);
    assert last in multiset(rest);
    assert last in rest;
    var j :| 0 <= j < |rest| && rest[j] == last;
  }
}
