# Trading journal: ledger and position sizing, in Dafny

This project models the core of a personal trading journal. The journal keeps
two tables, Accounts and Trades, for one or more brokerage accounts. It sizes a
position from a risk budget and records trades through their life cycle:
open, close, edit and delete. Closing a trade, editing its P&L and deleting a
closed trade reconcile the owning account's balance; opening a trade does not
touch it.
From the tables it derives the figures the screens show: the deposit (cash not
tied up in open trades), the fee-adjusted valuation of open positions, R-multiples,
closed-trade KPIs and the equity curve.

Layout, one module per file:

- `wrappers.dfy` (`Wrappers`): `Option`, the model of Python's `None` results.
- `numeric.dfy` (`Numeric`): `Abs`, `Trunc` (Python `int()` on a float, truncation toward zero) and `Round2` (`round(x, 2)`, ties to even).
- `symbols.dfy` (`Symbols`): the zero-padding rule for numeric market codes. The price feed and the listing snapshot are parameters.
- `position_sizer.dfy` (`PositionSizer`): `calculate_position`.
- `ledger.dfy` (`Ledger`): typed rows of both tables, the pure table operations, and one `*Step` function for each trade operation that also touches the Accounts table (close, update, delete). A step function gives both tables after the operation, including its call back into the account ledger.
- `ledger_properties.dfy` (`LedgerProperties`): balance reconciliation, cascade and id lemmas over the step functions.
- `trade_manager.dfy` (`TradeLogic`): class `TradeManager`. Its two `seq` fields are the tables, and its methods change them as the source's load-mutate-save sequence does. `CloseTrade`, `UpdateTrade` and `DeleteTrade` are proved equal to their step functions; `AddTrade`'s contract gives the new Trades table itself.
- `journal.dfy` (`Journal`): the deposit, the record form, the open-position loops (methods with loop invariants), ROI, R-multiple and the progress bar.
- `history.dfy` (`History`): closed-trade KPIs, the sort by exit date and the equity curve.

Prices and balances are exact `real`s. Share counts are `int`s. Today's date is
a parameter. The market-price feed is a parameter of type `string -> Option<real>`,
and the code-to-name listing is a `map`.

Points where the code's behaviour is easy to misread, all modelled as written:

- `calculate_position` divides the *unrounded* risk amount by the stop distance. Only the reported adjusted capital and risk amount are truncated. Every tier outside {1, 2, 3} gets factor 1.0.
- `update_account` returns "not found" before it checks for a duplicate new id.
- `update_account_balance` adds the delta to *every* row with that id.
- `close_trade` does not check that the trade is Open. Closing twice credits the P&L twice.
- `add_trade` truncates the risk amount with `int()`.
- `update_trade` skips the balance call when the P&L difference is zero.

## Model

| member | source | states |
|---|---|---|
| Numeric.Trunc | trade_logic.py:304 | `int()` truncates toward zero: for x ≥ 0 the result n satisfies n ≤ x < n+1, and for x < 0 it satisfies n−1 < x ≤ n |
| Numeric.Round2 | trade_logic.py:230 | `round(x, 2)` is a whole number of hundredths within 0.005 of x, strictly nearer than 0.005 unless x is an exact half-hundredth, and an exact half goes to the even hundredth |
| Symbols.NormalizeSymbol | journal_app.py:125 | an all-digit symbol shorter than 6 characters becomes 6 characters: zeros, then the symbol; any other symbol is unchanged |
| Symbols.ZeroFill | trade_logic.py:323 | `zfill` keeps the string as its suffix, pads with '0' only, and yields the larger of the width and the length |
| Symbols.NormalizeSymbolIdempotent | journal_app.py:125 | padding twice is the same as padding once |
| Symbols.LookupsIgnorePadding | trade_logic.py:321-323 | price and name lookups give the same answer for a raw symbol and for its padded form |
| Symbols.FetchCurrentPrice | trade_logic.py:318-335 | the feed is asked for the zero-filled code when the symbol is all digits and shorter than 6, and for the symbol itself otherwise |
| Symbols.GetStockName | trade_logic.py:337-350 | a name is returned exactly when the padded code is in the listing, and it is the listing's name for that code |
| PositionSizer.TrendFactor | trade_logic.py:292 | tiers 3/2/1 map to 1.0/0.6666/0.3333, and the factor is 1.0 exactly when the tier is neither 2 nor 1 |
| PositionSizer.RiskBudgetNonNegative | trade_logic.py:293-296 | for non-negative capital and risk %, the risk budget is non-negative |
| PositionSizer.RiskBudgetWithinBase | trade_logic.py:292-296 | the budget never exceeds capital·risk%/100, and equals it for tier 3 |
| PositionSizer.CalculatePosition | trade_logic.py:284-316 | `None` exactly when entry = stop; otherwise total = trunc(unrounded risk / abs(entry−stop)), unit = trunc(total/3), and only the reported capital and risk amount are truncated |
| PositionSizer.SharesWithinBudget | trade_logic.py:304 | for a non-negative budget, q·dist ≤ budget < (q+1)·dist: the largest whole share count that fits the budget |
| PositionSizer.UnitSplit | trade_logic.py:307 | `int(total/3)` on a non-negative count is integer division by 3 |
| PositionSizer.PositionFitsRiskBudget | trade_logic.py:293-307 | for non-negative capital and risk %: total ≥ 0, total·dist ≤ the unrounded risk < (total+1)·dist, and unit = total div 3 |
| PositionSizer.WorkedExample | trade_logic.py:284-316 | 10,000,000 at 2%, entry 10,000, stop 9,200, tier 3 gives 1.0 / 10,000,000 / 200,000 / 800 / 250 / 83 |
| Ledger.FindAccount | trade_logic.py:143 | index of the first row with the id; none exactly when the id is absent |
| Ledger.CreditAccount | trade_logic.py:239-243 | rows with the id get `delta` added to CurrentBalance; all other rows and columns are unchanged |
| Ledger.RemoveAccount | trade_logic.py:135-139 | rows with the id are gone; every other row keeps its multiplicity |
| Ledger.RemoveAccountKeepsIdsUnique | trade_logic.py:137 | deleting an account keeps account ids unique |
| Ledger.FindTrade | trade_logic.py:213-217 | index of the first row with the TradeID; none exactly when the TradeID is absent |
| Ledger.RelabelTrades | trade_logic.py:160-164 | trades under the old id move to the new id; all other trades and columns are unchanged |
| Ledger.SelectTrades | trade_logic.py:167-181 | the rows that pass the account/status filter, each with its multiplicity; an empty or missing filter does not filter |
| Ledger.RemoveTrades | trade_logic.py:257 | every row with the TradeID is removed, the others remain, and an absent TradeID changes nothing |
| Ledger.NewTradeRow | trade_logic.py:183-206 | the new row is Open with exit price, P&L and R-multiple 0 and no exit date; strategy and trend tier are the caller's; the entry date falls back to today; the risk is truncated |
| Ledger.CloseR | trade_logic.py:223-224 | the R-multiple times the stop distance is the price move, and it is 0 when the distance is 0 |
| Ledger.ClosedRow | trade_logic.py:218-230 | the closed row is Closed at the exit price and date, with P&L (exit−entry)·qty and R-multiple Round2(CloseR); every other column is unchanged |
| Ledger.ApplyField | trade_logic.py:278 | the patched cell takes the new value verbatim and every other cell is unchanged |
| Ledger.PatchPnlIsPnLColumn | trade_logic.py:268-270 | the patch's P&L value is the one its last PnL entry gives the PnL column |
| Ledger.ApplyPatch | trade_logic.py:277-278 | every patched column holds its patched value and every other column is unchanged; nothing is recomputed |
| Ledger.CloseTradeStep | trade_logic.py:211-237 | succeeds exactly when the TradeID exists; on failure both tables are unchanged; row count and ids are kept |
| Ledger.UpdateTradeStep | trade_logic.py:261-281 | succeeds exactly when the TradeID exists; failure changes nothing; without a PnL entry the accounts are unchanged |
| Ledger.DeleteTradeStep | trade_logic.py:245-259 | always reports success; Trades loses exactly the rows with the TradeID; for a present TradeID the Accounts table is RefundClosed of the first matching row; an absent TradeID changes neither table |
| LedgerProperties.RemoveAccountAppend | trade_logic.py:137 | deleting from a concatenation is the concatenation of the deletions, so the remaining accounts keep their relative order |
| Ledger.RealisedPnlSign | trade_logic.py:222 | with shares held, the P&L is positive exactly when the exit is above the entry and zero exactly at the entry; with no shares it is zero |
| LedgerProperties.CreditMovesBalance | trade_logic.py:242 | the account's balance moves by exactly delta, and the account set is unchanged |
| LedgerProperties.CreditTwice | trade_logic.py:239-243 | two balance updates of one account add up: the balance moves by p + q |
| LedgerProperties.CreditKeepsOtherBalances | trade_logic.py:242 | other accounts' balances are unchanged |
| LedgerProperties.CreditUnknownIsNoOp | trade_logic.py:241 | for an unknown account the Accounts table is unchanged |
| Ledger.AddAccountKeepsIdsUnique | trade_logic.py:121-131 | appending a fresh id keeps ids unique |
| LedgerProperties.CloseRewritesOneRow | trade_logic.py:217-230 | only the first matching row is rewritten, to its closed form, whatever its previous status |
| LedgerProperties.CloseCreditsPnl | trade_logic.py:222-235 | the owner's balance moves by exactly (exit−entry)·qty and every other balance is unchanged |
| LedgerProperties.CloseTwiceCreditsTwice | trade_logic.py:211-237 | with no Open check, closing twice at one price credits the P&L twice |
| LedgerProperties.DeleteMissingIsNoOp | trade_logic.py:245-259 | deleting an absent TradeID returns success with both tables unchanged |
| LedgerProperties.DeleteOpenKeepsAccounts | trade_logic.py:250-252 | deleting an Open trade leaves the Accounts table unchanged |
| LedgerProperties.DeleteRefundsClosed | trade_logic.py:250-255 | deleting a Closed trade moves its owner's balance by exactly −P&L and leaves every other balance unchanged |
| LedgerProperties.RefundClosedBalances | trade_logic.py:252-255 | the refund of a Closed row moves its owner's balance by −P&L (nothing when the P&L is 0) and no other balance |
| LedgerProperties.RemoveTradesAppend | trade_logic.py:257 | deleting from a concatenation is the concatenation of the deletions, so the remaining trades keep their relative order |
| LedgerProperties.CloseThenDeleteRestoresAccounts | trade_logic.py:249-257 | close then delete gives back the exact pre-close Accounts table and leaves no row with the TradeID |
| LedgerProperties.UpdateRewritesOneRow | trade_logic.py:264-278 | only the first matching row changes, to the patched row, and a patched P&L is stored verbatim |
| LedgerProperties.UpdatePnlAdjustsByDifference | trade_logic.py:268-275 | with PnL p in the patch, the owner's balance moves by exactly p − old P&L, once; other balances are unchanged |
| LedgerProperties.CloseThenEditPnl | trade_logic.py:268-275 | close then an edit of the P&L to p leaves the balance at its pre-close value + p |
| LedgerProperties.SelectAppend | trade_logic.py:167-181 | the query on a concatenation is the concatenation of the queries, so the selected rows keep their relative order |
| LedgerProperties.RenameMovesTrades | trade_logic.py:163 | after a rename A→B, the query for B returns exactly A's former trades, in order, relabelled |
| LedgerProperties.RenameEmptiesOldAccount | trade_logic.py:163 | after a rename A→B, the query for A returns nothing |
| LedgerProperties.AddKeepsSequentialIds | trade_logic.py:185 | with no deletions, ids stay equal to row numbers 1..n |
| LedgerProperties.IdReuseAfterDelete | trade_logic.py:185 | after deleting a trade other than the last, the next id equals the last row's id, so ids collide |
| TradeLogic.TradeManager.AddAccount | trade_logic.py:119-133 | a duplicate id fails with the table unchanged; otherwise exactly one row (balance, balance, "KRW") is appended; ids stay unique |
| TradeLogic.TradeManager.DeleteAccount | trade_logic.py:135-139 | removes the account's rows and leaves the trades untouched |
| TradeLogic.TradeManager.UpdateAccount | trade_logic.py:141-158 | not-found or duplicate fails with nothing changed; otherwise trades are relabelled and the row is renamed with its balance overwritten |
| TradeLogic.TradeManager.UpdateTradesAccountId | trade_logic.py:160-164 | the Trades table becomes RelabelTrades of itself |
| TradeLogic.TradeManager.UpdateAccountBalance | trade_logic.py:239-243 | Accounts becomes CreditAccount of itself, with no change for an unknown id |
| TradeLogic.TradeManager.GetTrades | trade_logic.py:167-181 | the filtered rows with their multiplicities |
| TradeLogic.TradeManager.AddTrade | trade_logic.py:183-209 | appends one Open row with id = row count + 1; existing rows and the accounts are unchanged |
| TradeLogic.TradeManager.CloseTrade | trade_logic.py:211-237 | both tables and the result equal CloseTradeStep |
| TradeLogic.TradeManager.DeleteTrade | trade_logic.py:245-259 | both tables and the result equal DeleteTradeStep |
| TradeLogic.TradeManager.UpdateTrade | trade_logic.py:261-281 | both tables and the result equal UpdateTradeStep |
| TradeLogic.TradeManager.RefundRow | trade_logic.py:250-255 | Accounts becomes RefundClosed of itself (a Closed row with non-zero P&L is taken back); Trades is untouched |
| TradeLogic.TradeManager.CorrectPnl | trade_logic.py:268-275 | Accounts becomes PnlCorrection of itself (the difference to the stored P&L, skipped when zero); Trades is untouched |
| TradeLogic.PatchRow | trade_logic.py:277-278 | the loop writing each patch entry into the row yields ApplyPatch of the row |
| Journal.Deposit | journal_app.py:92-104 | a deposit exists exactly for a selected, existing account |
| Journal.DepositIsBalanceLessOpenTrades | journal_app.py:98-104 | deposit = balance − Σ entry·qty over that account's Open trades |
| Journal.DepositWithoutOpenTrades | journal_app.py:100-104 | with no Open trade, deposit = balance |
| Journal.DepositAfterAdd | journal_app.py:98-104 | recording a trade lowers the deposit by entry·qty |
| Journal.CloseReleasesProceeds | journal_app.py:101-104 | closing an Open trade raises the deposit by the sale proceeds, P&L + cost |
| Journal.StopLossFromPct | journal_app.py:147 | the stop is slPct % below the entry, and lies strictly between 0 and the entry for 0 < slPct < 100 |
| Journal.RecordTrade | journal_app.py:215-225 | recorded exactly when an account is selected, qty > 0 and entry > 0; the symbol is stored zero-padded; risk = qty·abs(entry−stop); unit = qty div 3 |
| Journal.RecordedRiskIsLossAtStop | journal_app.py:218 | closing the recorded long trade at its stop realises exactly −risk |
| Journal.RecordingSizedQuantityStaysInBudget | journal_app.py:210-218 | recording the sizer's quantity keeps the recorded risk within the unrounded risk budget |
| Journal.ValuationPrice | journal_app.py:255-256 | the quote for the padded code is used; a missing or zero quote falls back to the entry price |
| Journal.MarkAt | journal_app.py:258-266 | evaluation = price·qty, fee = 0.0023·evaluation and net = evaluation − cost − fee |
| Journal.NetPnlForms | journal_app.py:404-405 | the all-accounts formulas give the same fee and net as the Active-tab ones |
| Journal.UnquotedPositionLosesOnlyFee | journal_app.py:256 | an unquoted position's net is −fee on its cost |
| Journal.MarkExample | journal_app.py:260-266 | price 10,500, entry 10,000, qty 100 gives fee 2,415 and net 47,585 |
| Journal.MarkAll | journal_app.py:254-277 | one summary line per trade, in order |
| Journal.TotalsReconcile | journal_app.py:268-270 | total fee = 0.0023·total evaluation, and total net = evaluation − invested − fee |
| Journal.SummarizeOpenPositions | journal_app.py:244-277 | the loop's totals are the sums of the per-trade values, and they reconcile |
| Journal.TotalRoi | journal_app.py:425 | ROI·buy = net·100 for buy > 0, else 0; the sign of ROI follows the net |
| Journal.NetTotalIsSumNet | journal_app.py:409 | summing the net directly equals summing the summary lines |
| Journal.SummarizeActive | journal_app.py:394-425 | the loop's buy total = Σ entry·qty, its net total = Σ net, and roi = TotalRoi of the two |
| Journal.PositionReturnPct | journal_app.py:421 | pct·cost = net·100; undefined exactly when the cost is 0 |
| Journal.RawRMultiple | journal_app.py:309-310 | R·abs(entry−stop) = curr − entry, and R = 0 when the distance is 0 |
| Journal.RMultipleLandmarks | journal_app.py:310 | R is 0 at the entry and −1 at the stop of a long trade |
| Journal.StoredRMultipleIsRoundedRaw | trade_logic.py:223-230 | the stored R-multiple is the raw R at the exit, rounded to 2 places |
| Journal.RMultipleExample | journal_app.py:310 | entry 10,000, stop 9,200, price 10,500 gives 0.625R and progress 0.40625 |
| Journal.ProgressValue | journal_app.py:359 | the value lies in [0,1]; it is (R+1)/4 on [−1,3], 0 below and 1 above |
| Journal.ProgressMonotone | journal_app.py:359 | the progress value is monotone in R |
| History.SortByExitDate | journal_app.py:461 | the same trades (a permutation), ascending by exit date, with NaT last |
| History.Count | journal_app.py:450 | the count of rows meeting the condition is at most the row count |
| History.NoneCounted | journal_app.py:450 | the count is 0 when no row meets the condition |
| History.AllCounted | journal_app.py:450 | the count is the row count when every row meets the condition |
| History.TotalPermutation | journal_app.py:449 | a column sum does not depend on row order |
| History.CountPermutation | journal_app.py:450 | a row count does not depend on row order |
| History.WinRate | journal_app.py:452 | in [0,100]; 0 with no trades; rate·n = wins·100 |
| History.WinRateExtremes | journal_app.py:452 | the rate is 100 when every trade wins and 0 when none does |
| History.AverageR | journal_app.py:453 | the mean is absent exactly when there are no trades; mean·n = Σ R |
| History.AverageRWithinRange | journal_app.py:453 | the mean R lies between any lower and upper bound of the stored R values |
| History.ClosedKpis | journal_app.py:449-453 | total P&L is the column sum; the win rate lies in [0,100] and is 0 with no trades; there is no mean R exactly when there are no trades |
| History.KpisIgnoreOrder | journal_app.py:443-453 | the KPIs are the same for every order of the history rows |
| History.RunningSumsAt | journal_app.py:462 | cumsum entry k = start + P&L of the first k+1 rows |
| History.EquityCurve | journal_app.py:461-462 | one point per trade, carrying that trade's exit date |
| History.EquityChart | journal_app.py:461-462 | one point per closed trade, in ascending exit-date order |
| History.EquityChartShape | journal_app.py:461-462 | points are ascending by date; point k = initial + Σ of the first k+1 P&Ls; the last point = initial + total P&L |
| History.ClosedReport | journal_app.py:439-462 | a report exists exactly for a selected, existing account with Closed trades; it shows those trades' KPIs and curve from InitialBalance |
| History.ReportCoversClosedTrades | journal_app.py:440 | the charted trades are exactly that account's Closed trades |

## Left out

- Persistence: the Google Sheets and CSV backends (`connect_gsheets`, `_get_worksheet`, `_load_df`, `_save_df`, `init_files`) are I/O through foreign libraries. The tables are in-memory sequences of typed rows that always have their columns. The Sheets backend's column-less empty table, on which the source would fail with a missing-column error, is not modelled.
- Market data: `fdr.DataReader` and `fdr.StockListing` are an external oracle. The feed is a function parameter and the listing a map. The listing's once-per-process caching is not modelled.
- Pandas coercion: `pd.to_numeric(..., errors='coerce').fillna(0)` and `pd.to_datetime` are library parsing. Rows are typed, and exit dates are `YYYY-MM-DD` strings or empty. Empty stands for a date that does not parse (NaT) and sorts last.
- Clock: `datetime.now()` is replaced by a `today` parameter.
- Presentation: Streamlit widgets, CSS, session-state edit toggles, Plotly charts and number formatting carry no logic. The descending sort of the history list at journal_app.py:446 is display order only; `KpisIgnoreOrder` shows that the KPIs do not depend on it.
- Floating point: reals are exact. The binary rounding of 0.6666, 0.3333 and 0.0023 is not modelled, and `round` is modelled as exact half-to-even on hundredths.
- Atomicity: cross-table write atomicity and read-modify-write races are storage and concurrency concerns of a single-user app.
- Outcome messages: the message strings returned by `add_account` and `update_account` are reduced to an outcome value.
- Ledger.ApplyField: an `update_trade` key outside the sixteen Trades columns, which pandas would add as a new column, cannot be written; patches range over the table's columns.
- History.SortByExitDate: pandas' default sort is not stable, and the model is a stable insertion sort. Trades with equal exit dates may therefore appear in another order, which changes intermediate equity points but not the last one (`EquityChartShape` proves the last point for any input order).
- Symbols.NormalizeSymbol: only the ASCII digits '0' to '9' count as digits. Python's `str.isdigit()` also accepts digits of other scripts and superscript digits, so a short symbol made of those is zero-filled by the source but left as it is by the model; `FetchCurrentPrice`, `GetStockName` and `RecordTrade` inherit this.
- Journal.PositionReturnPct: the source divides by the cost without a guard (journal_app.py:307 and 421), so an open row with zero quantity or zero entry price raises `ZeroDivisionError` and stops the page. The model returns `None` for that row instead of modelling the crash.
- LedgerProperties.RenameMovesTrades: assumes no trade is already filed under the new id. Orphaned trades of a deleted account with that name would join the renamed account's trades, because `delete_account` does not cascade.
