/** The closed-trade statistics of the journal: total realised P&L, win rate
    and mean R-multiple of the selected account's Closed trades, and its
    equity curve, the running sum of realised P&L on top of the account's
    initial balance with the trades taken in order of exit date. */
module History {
  import opened Wrappers
  import opened Ledger

  // ------------------------------------------------------------ exit dates

  /** Lexicographic order on strings; on `YYYY-MM-DD` dates it is the order
      of the calendar. */
  predicate LexLe(a: string, b: string)
    decreases |a|
  {
    if |a| == 0 then true
    else if |b| == 0 then false
    else if a[0] != b[0] then a[0] < b[0]
    else LexLe(a[1..], b[1..])
  }

  lemma {:induction false} LexLeTotal(a: string, b: string)
    ensures LexLe(a, b) || LexLe(b, a)
    decreases |a|
  {
    if |a| > 0 && |b| > 0 && a[0] == b[0] {
      LexLeTotal(a[1..], b[1..]);
    }
  }

  /** The order of a sort on exit date: an empty exit date (a date that does
      not parse, NaT) sorts after every real date. */
  predicate ExitDateLe(a: string, b: string) {
    if a == "" then b == ""
    else b == "" || LexLe(a, b)
  }

  lemma ExitDateLeTotal(a: string, b: string)
    ensures ExitDateLe(a, b) || ExitDateLe(b, a)
  {
    if a != "" && b != "" {
      LexLeTotal(a, b);
    }
  }

  /** Every trade's exit date is no later than the next one's. */
  predicate ByExitDate(s: seq<Trade>) {
    forall i :: 0 < i < |s| ==> ExitDateLe(s[i - 1].exitDate, s[i].exitDate)
  }

  function InsertByExitDate(x: Trade, s: seq<Trade>): (r: seq<Trade>)
    requires ByExitDate(s)
    ensures ByExitDate(r)
    ensures multiset(r) == multiset(s) + multiset{x}
    ensures |r| == |s| + 1
    ensures r[0] == x || (|s| > 0 && r[0] == s[0])
  {
    if |s| == 0 then [x]
    else if ExitDateLe(x.exitDate, s[0].exitDate) then [x] + s
    else
      ExitDateLeTotal(x.exitDate, s[0].exitDate);
      assert s == [s[0]] + s[1..];
      [s[0]] + InsertByExitDate(x, s[1..])
  }

  /** `sort_values("ExitDate")`: the same trades, ascending by exit date. */
  function SortByExitDate(s: seq<Trade>): (r: seq<Trade>)
    ensures ByExitDate(r)
    ensures multiset(r) == multiset(s)
    ensures |r| == |s|
  {
    if |s| == 0 then []
    else
      assert s == [s[0]] + s[1..];
      InsertByExitDate(s[0], SortByExitDate(s[1..]))
  }

  // ---------------------------------------------------------------- sums

  function Pnl(t: Trade): real {
    t.pnl
  }

  function RMultiple(t: Trade): real {
    t.rMultiple
  }

  predicate IsWin(t: Trade) {
    t.pnl > 0.0
  }

  /** The column sum `df[col].sum()` for the column `f` reads. */
  function Total(s: seq<Trade>, f: Trade -> real): real {
    if |s| == 0 then 0.0 else f(s[0]) + Total(s[1..], f)
  }

  /** `len(df[mask])`: the rows that satisfy `p`. */
  function Count(s: seq<Trade>, p: Trade -> bool): (n: nat)
    ensures n <= |s|
  {
    if |s| == 0 then 0
    else (if p(s[0]) then 1 else 0) + Count(s[1..], p)
  }

  lemma {:induction false} TotalAppend(a: seq<Trade>, b: seq<Trade>, f: Trade -> real)
    ensures Total(a + b, f) == Total(a, f) + Total(b, f)
  {
    if |a| > 0 {
      assert (a + b)[1..] == a[1..] + b;
      TotalAppend(a[1..], b, f);
    } else {
      assert a + b == b;
    }
  }

  lemma {:induction false} CountAppend(a: seq<Trade>, b: seq<Trade>, p: Trade -> bool)
    ensures Count(a + b, p) == Count(a, p) + Count(b, p)
  {
    if |a| > 0 {
      assert (a + b)[1..] == a[1..] + b;
      CountAppend(a[1..], b, p);
    } else {
      assert a + b == b;
    }
  }

  /** Taking one element out of a sequence. */
  lemma SplitAt(b: seq<Trade>, j: nat)
    requires j < |b|
    ensures b == b[..j] + [b[j]] + b[j + 1..]
    ensures multiset(b) == multiset(b[..j] + b[j + 1..]) + multiset{b[j]}
  {
    assert b == b[..j] + [b[j]] + b[j + 1..];
  }

  lemma Decompose(b: seq<Trade>, j: nat)
    requires j < |b|
    ensures b == b[..j] + ([b[j]] + b[j + 1..])
  {
    assert b == b[..j] + b[j..];
    assert b[j..] == [b[j]] + b[j + 1..];
  }

  lemma TotalCons(x: Trade, s: seq<Trade>, f: Trade -> real)
    ensures Total([x] + s, f) == f(x) + Total(s, f)
  {
    assert ([x] + s)[1..] == s;
  }

  lemma CountCons(x: Trade, s: seq<Trade>, p: Trade -> bool)
    ensures Count([x] + s, p) == (if p(x) then 1 else 0) + Count(s, p)
  {
    assert ([x] + s)[1..] == s;
  }

  /** Taking row j out of a column sum takes out its value. */
  lemma TotalRemove(b: seq<Trade>, j: nat, f: Trade -> real)
    requires j < |b|
    ensures Total(b, f) == f(b[j]) + Total(b[..j] + b[j + 1..], f)
  {
    var pre, x, post := b[..j], b[j], b[j + 1..];
    Decompose(b, j);
    TotalAppend(pre, [x] + post, f);
    assert Total(b, f) == Total(pre, f) + Total([x] + post, f);
    TotalCons(x, post, f);
    TotalAppend(pre, post, f);
  }

  lemma CountRemove(b: seq<Trade>, j: nat, p: Trade -> bool)
    requires j < |b|
    ensures Count(b, p) == (if p(b[j]) then 1 else 0) + Count(b[..j] + b[j + 1..], p)
  {
    var pre, x, post := b[..j], b[j], b[j + 1..];
    Decompose(b, j);
    CountAppend(pre, [x] + post, p);
    assert Count(b, p) == Count(pre, p) + Count([x] + post, p);
    CountCons(x, post, p);
    CountAppend(pre, post, p);
  }

  /** For a permutation b of a, the position in b of a's first element and
      what is left of b without it. */
  lemma PermutationHead(a: seq<Trade>, b: seq<Trade>) returns (j: nat)
    requires multiset(a) == multiset(b) && |a| > 0
    ensures j < |b| && b[j] == a[0]
    ensures multiset(a[1..]) == multiset(b[..j] + b[j + 1..])
  {
    var x := a[0];
    assert multiset(a) == multiset(a[1..]) + multiset{x} by {
      assert a == [x] + a[1..];
    }
    assert x in multiset(b);
    j :| 0 <= j < |b| && b[j] == x;
    SplitAt(b, j);
    MultisetCancel(multiset(a[1..]), multiset(b[..j] + b[j + 1..]), x);
  }

  lemma MultisetCancel(m1: multiset<Trade>, m2: multiset<Trade>, x: Trade)
    requires m1 + multiset{x} == m2 + multiset{x}
    ensures m1 == m2
  {
    assert m1 == (m1 + multiset{x}) - multiset{x};
    assert m2 == (m2 + multiset{x}) - multiset{x};
  }

  /** A column sum does not depend on the order of the rows. */
  lemma {:induction false} TotalPermutation(a: seq<Trade>, b: seq<Trade>, f: Trade -> real)
    requires multiset(a) == multiset(b)
    ensures Total(a, f) == Total(b, f)
    decreases |a|
  {
    if |a| == 0 {
      assert |b| == |multiset(b)| == 0;
    } else {
      var j := PermutationHead(a, b);
      TotalPermutation(a[1..], b[..j] + b[j + 1..], f);
      TotalRemove(b, j, f);
    }
  }

  /** Neither does a row count. */
  lemma {:induction false} CountPermutation(a: seq<Trade>, b: seq<Trade>, p: Trade -> bool)
    requires multiset(a) == multiset(b)
    ensures Count(a, p) == Count(b, p)
    decreases |a|
  {
    if |a| == 0 {
      assert |b| == |multiset(b)| == 0;
    } else {
      var j := PermutationHead(a, b);
      CountPermutation(a[1..], b[..j] + b[j + 1..], p);
      CountRemove(b, j, p);
    }
  }

  /** A column whose every value lies in [lo, hi] sums to between n·lo and
      n·hi. */
  lemma {:induction false} TotalBounds(s: seq<Trade>, f: Trade -> real, lo: real, hi: real)
    requires forall i :: 0 <= i < |s| ==> lo <= f(s[i]) <= hi
    ensures |s| as real * lo <= Total(s, f) <= |s| as real * hi
  {
    if |s| > 0 {
      var rest := s[1..];
      assert forall i :: 0 <= i < |rest| ==> rest[i] == s[i + 1];
      TotalBounds(rest, f, lo, hi);
      var m := |rest| as real;
      assert |s| as real == m + 1.0;
      assert Total(s, f) == f(s[0]) + Total(rest, f);
      MulSucc(m, lo);
      MulSucc(m, hi);
    }
  }

  lemma MulSucc(m: real, x: real)
    ensures (m + 1.0) * x == m * x + x
  {
  }

  // ---------------------------------------------------------------- KPIs

  /** The three figures over the Closed trades. The mean R-multiple of no
      trade is missing (NaN in the source). */
  datatype Kpis = Kpis(totalPnl: real, winRate: real, avgR: Option<real>)

  /** Winning trades over all trades, in percent; zero when there are none. */
  function WinRate(s: seq<Trade>): (r: real)
    ensures 0.0 <= r <= 100.0
    ensures |s| == 0 ==> r == 0.0
    ensures |s| > 0 ==> r * |s| as real == Count(s, IsWin) as real * 100.0
  {
    var n := |s|;
    if n > 0 then
      var w := Count(s, IsWin);
      Percentage(w as real, n as real);
      w as real / n as real * 100.0
    else 0.0
  }

  /** Only winners: 100%; no winner: 0%. */
  lemma WinRateExtremes(s: seq<Trade>)
    ensures |s| > 0 && (forall t :: t in s ==> IsWin(t)) ==> WinRate(s) == 100.0
    ensures (forall t :: t in s ==> !IsWin(t)) ==> WinRate(s) == 0.0
  {
    if |s| > 0 {
      Percentage(Count(s, IsWin) as real, |s| as real);
      if forall t :: t in s ==> IsWin(t) {
        AllCounted(s, IsWin);
      }
      if forall t :: t in s ==> !IsWin(t) {
        NoneCounted(s, IsWin);
      }
    }
  }

  /** A part of a positive whole, in percent. */
  lemma Percentage(part: real, whole: real)
    requires 0.0 <= part <= whole && whole > 0.0
    ensures 0.0 <= part / whole * 100.0 <= 100.0
    ensures (part / whole * 100.0) * whole == part * 100.0
    ensures part == whole ==> part / whole * 100.0 == 100.0
    ensures part == 0.0 ==> part / whole * 100.0 == 0.0
  {
    var q := part / whole;
    assert q * whole == part;
  }

  /** When every row meets the condition, every row is counted. */
  lemma {:induction false} AllCounted(s: seq<Trade>, p: Trade -> bool)
    requires forall t :: t in s ==> p(t)
    ensures Count(s, p) == |s|
  {
    if |s| > 0 {
      assert forall t :: t in s[1..] ==> t in s;
      AllCounted(s[1..], p);
      assert s[0] in s;
    }
  }

  /** When no row meets the condition, the count is zero. */
  lemma {:induction false} NoneCounted(s: seq<Trade>, p: Trade -> bool)
    requires forall t :: t in s ==> !p(t)
    ensures Count(s, p) == 0
  {
    if |s| > 0 {
      assert forall t :: t in s[1..] ==> t in s;
      NoneCounted(s[1..], p);
      assert s[0] in s;
    }
  }

  /** The mean of the R-multiple column. */
  function AverageR(s: seq<Trade>): (r: Option<real>)
    ensures r.None? <==> |s| == 0
    ensures r.Some? ==> r.value * |s| as real == Total(s, RMultiple)
  {
    if |s| == 0 then None
    else
      var m := Total(s, RMultiple) / |s| as real;
      assert m * |s| as real == Total(s, RMultiple);
      Some(m)
  }

  /** The three figures of the Closed view: total P&L, win rate and mean R. */
  function ClosedKpis(s: seq<Trade>): (k: Kpis)
    ensures k.totalPnl == Total(s, Pnl)
    ensures 0.0 <= k.winRate <= 100.0 && (|s| == 0 ==> k.winRate == 0.0)
    ensures k.avgR.None? <==> |s| == 0
  {
    Kpis(Total(s, Pnl), WinRate(s), AverageR(s))
  }

  /** The mean R-multiple lies between the smallest and the largest stored
      R-multiple. */
  lemma AverageRWithinRange(s: seq<Trade>, lo: real, hi: real)
    requires |s| > 0
    requires forall t :: t in s ==> lo <= t.rMultiple <= hi
    ensures lo <= AverageR(s).value <= hi
  {
    RBoundsByIndex(s, lo, hi);
    TotalBounds(s, RMultiple, lo, hi);
    MeanBounds(Total(s, RMultiple), |s| as real, AverageR(s).value, lo, hi);
  }

  lemma RBoundsByIndex(s: seq<Trade>, lo: real, hi: real)
    requires forall t :: t in s ==> lo <= t.rMultiple <= hi
    ensures forall i :: 0 <= i < |s| ==> lo <= RMultiple(s[i]) <= hi
  {
    forall i | 0 <= i < |s|
      ensures lo <= RMultiple(s[i]) <= hi
    {
      assert s[i] in s;
    }
  }

  /** A mean of n values whose sum lies in [n·lo, n·hi] lies in [lo, hi]. */
  lemma MeanBounds(total: real, n: real, m: real, lo: real, hi: real)
    requires n > 0.0 && m * n == total && n * lo <= total <= n * hi
    ensures lo <= m <= hi
  {
    CancelFactor(lo, m, n);
    CancelFactor(m, hi, n);
  }

  /** A positive factor common to both sides of an inequality cancels. */
  lemma CancelFactor(x: real, y: real, n: real)
    requires n > 0.0 && n * x <= y * n
    ensures x <= y
  {
  }

  /** The history is sorted (descending, by an unstable sort) before the KPIs
      are taken; they do not depend on the order of the rows. */
  lemma KpisIgnoreOrder(a: seq<Trade>, b: seq<Trade>)
    requires multiset(a) == multiset(b)
    ensures ClosedKpis(a) == ClosedKpis(b)
  {
    assert |a| == |multiset(a)| == |multiset(b)| == |b|;
    TotalPermutation(a, b, Pnl);
    TotalPermutation(a, b, RMultiple);
    CountPermutation(a, b, IsWin);
  }

  // -------------------------------------------------------- equity curve

  datatype EquityPoint = EquityPoint(exitDate: string, equity: real)

  /** `cumsum()` with the running total started at `acc`. */
  function RunningSums(s: seq<Trade>, acc: real): (r: seq<real>)
    ensures |r| == |s|
  {
    if |s| == 0 then []
    else [acc + s[0].pnl] + RunningSums(s[1..], acc + s[0].pnl)
  }

  /** Entry k of the running sums is the start plus the P&L of the first
      k + 1 trades. */
  lemma {:induction false} RunningSumsAt(s: seq<Trade>, acc: real, k: nat)
    requires k < |s|
    ensures RunningSums(s, acc)[k] == acc + Total(s[..k + 1], Pnl)
  {
    assert s[..k + 1] == [s[0]] + s[..k + 1][1..];
    if k > 0 {
      RunningSumsAt(s[1..], acc + s[0].pnl, k - 1);
      assert s[..k + 1][1..] == s[1..][..k];
    }
  }

  /** `history_chart['PnL'].cumsum() + InitialBalance`, paired with each
      trade's exit date. */
  function EquityCurve(sorted: seq<Trade>, initialBalance: real): (r: seq<EquityPoint>)
    ensures |r| == |sorted|
    ensures forall k :: 0 <= k < |r| ==> r[k].exitDate == sorted[k].exitDate
  {
    var sums := RunningSums(sorted, 0.0);
    seq(|sorted|, k requires 0 <= k < |sorted| => EquityPoint(sorted[k].exitDate, sums[k] + initialBalance))
  }

  predicate PointsByDate(curve: seq<EquityPoint>) {
    forall i :: 0 < i < |curve| ==> ExitDateLe(curve[i - 1].exitDate, curve[i].exitDate)
  }

  /** The chart of the Closed trades: sorted ascending by exit date, then the
      running equity. */
  function EquityChart(history: seq<Trade>, initialBalance: real): (r: seq<EquityPoint>)
    ensures |r| == |history|
    ensures PointsByDate(r)
  {
    EquityCurve(SortByExitDate(history), initialBalance)
  }

  /** One point per closed trade, in ascending exit-date order; point k is
      the initial balance plus the P&L of the first k + 1 trades in that
      order, and the last point is the initial balance plus the total P&L,
      whatever order the trades came in. */
  lemma EquityChartShape(history: seq<Trade>, initialBalance: real)
    ensures var curve := EquityChart(history, initialBalance);
      && |curve| == |history|
      && PointsByDate(curve)
      && multiset(SortByExitDate(history)) == multiset(history)
    ensures var curve := EquityChart(history, initialBalance);
      forall k :: 0 <= k < |curve| ==>
        curve[k].equity == initialBalance + Total(SortByExitDate(history)[..k + 1], Pnl)
    ensures var curve := EquityChart(history, initialBalance);
      |curve| > 0 ==> curve[|curve| - 1].equity == initialBalance + ClosedKpis(history).totalPnl
  {
    var sorted := SortByExitDate(history);
    var curve := EquityChart(history, initialBalance);
    forall k | 0 <= k < |curve|
      ensures curve[k].equity == initialBalance + Total(sorted[..k + 1], Pnl)
    {
      RunningSumsAt(sorted, 0.0, k);
    }
    if |curve| > 0 {
      assert sorted[..|sorted|] == sorted;
      TotalPermutation(sorted, history, Pnl);
    }
  }

  // --------------------------------------------------------- the screen

  /** What the Closed view of the statistics tab shows. */
  datatype Report = Report(kpis: Kpis, curve: seq<EquityPoint>)

  /** The Closed view for the selected account: nothing without a selection,
      for an unknown account, or when the account has no Closed trade;
      otherwise the KPIs of its Closed trades and their equity curve on top
      of the InitialBalance of its first row. */
  function ClosedReport(accounts: seq<Account>, trades: seq<Trade>, selected: string): (r: Option<Report>)
    ensures r.Some? <==>
      selected != "" && HasAccount(accounts, selected) && SelectTrades(trades, Some(selected), Some(Closed)) != []
    ensures r.Some? ==>
      var history := SelectTrades(trades, Some(selected), Some(Closed));
      && r.value.kpis == ClosedKpis(history)
      && r.value.curve == EquityChart(history, accounts[FindAccount(accounts, selected).value].initialBalance)
  {
    if selected == "" then None
    else match FindAccount(accounts, selected)
      case None => None
      case Some(i) =>
        var history := SelectTrades(trades, Some(selected), Some(Closed));
        if history == [] then None
        else Some(Report(ClosedKpis(history), EquityChart(history, accounts[i].initialBalance)))
  }

  /** Every trade in the report is a Closed trade of the selected account, and
      every such trade is in it. */
  lemma ReportCoversClosedTrades(trades: seq<Trade>, selected: string, t: Trade)
    requires selected != ""
    ensures t in SortByExitDate(SelectTrades(trades, Some(selected), Some(Closed))) <==>
      t in trades && t.accountId == selected && t.status == Closed
  {
    var history := SelectTrades(trades, Some(selected), Some(Closed));
    assert t in SortByExitDate(history) <==> t in multiset(SortByExitDate(history));
    assert t in history <==> t in multiset(history);
  }
}
