/**
 * The scenario calculator run on an accepted signal: position sizing, the split of the
 * position across the targets, one row per target with its running profit, one row per
 * stop loss, and the summary figures (total profit, ROI, the TP1 + TP2 partial exit and
 * the risk/reward ratio against the first stop loss).
 */
module Scenario {
  import opened Wrappers
  import Text
  import opened SignalParser
  import opened Allocation

  datatype TradingMode = Spot | Futures

  /** The leverage in force: 1 in spot mode, the futures input bounded to `[1, 125]` otherwise. */
  function LeverageFor(mode: TradingMode, requested: int): (l: int)
    ensures 1 <= l <= 125
    ensures mode.Spot? ==> l == 1
    ensures mode.Futures? && 1 <= requested <= 125 ==> l == requested
  {
    if mode.Spot? then 1 else Clamp(requested, 1, 125)
  }

  /** The trading configuration: modal in IDR, the leverage in force and the distribution method. */
  datatype TradingConfig = TradingConfig(modal: int, leverage: int, distribution: Distribution)

  /** What the configuration inputs guarantee for a signal with `n` targets. */
  predicate ValidConfig(cfg: TradingConfig, n: nat) {
    && cfg.modal >= 100000
    && 1 <= cfg.leverage <= 125
    && (cfg.distribution.Custom? ==> |cfg.distribution.requested| >= n - 1)
  }

  /** A parsed signal the calculator is run on: a positive entry and at least one target. */
  predicate Eligible(sig: ParsedSignal) {
    sig.entry.Some? && sig.entry.value > 0.0 && |sig.targets| >= 1
  }

  /** Every signal the parse step accepts is one the calculator can run on. */
  lemma AcceptedSignalIsEligible(text: string)
    requires Accepted(ParseSpec(text))
    ensures Eligible(ParseSpec(text).value)
  {
    AcceptedIff(text);
  }

  /** Units bought with the effective modal (modal times leverage) at the entry price. */
  function PositionSize(modal: int, leverage: int, entry: real): (ps: real)
    requires entry > 0.0
    ensures ps * entry == (modal * leverage) as real
    ensures modal * leverage > 0 ==> ps > 0.0
  {
    (modal * leverage) as real / entry
  }

  datatype CalcError =
    | AllocationFailed(cause: AllocationError)
    | ShareIndexOutOfRange(index: nat)
    | FirstStopLossAtEntry

  /** One line of the take-profit table. */
  datatype TargetLine = TargetLine(level: nat, price: real, percentFromEntry: real, share: real,
                                 units: real, saleValue: real, profit: real, cumulative: real)

  /** The row for target `t` sold with `share` per cent of the position, after `before` of profit so far. */
  function RowFor(t: Level, share: real, entry: real, ps: real, before: real): TargetLine {
    var units := ps * (share / 100.0);
    var sale := units * t.price;
    var cost := units * entry;
    TargetLine(t.level, t.price, t.percentage, share, units, sale, sale - cost, before + (sale - cost))
  }

  /** A row's units are its share of the position, and its profit is their price gain over the entry. */
  lemma RowForMeaning(t: Level, share: real, entry: real, ps: real, before: real)
    ensures var row := RowFor(t, share, entry, ps, before);
            && row.units == ps * share / 100.0
            && row.saleValue == row.units * t.price
            && row.profit == row.units * (t.price - entry)
            && row.saleValue - row.profit == ps * entry * share / 100.0
            && row.cumulative == before + row.profit
  {
    var units := ps * (share / 100.0);
    assert units * t.price - units * entry == units * (t.price - entry);
    assert units * entry == ps * entry * share / 100.0;
  }

  /** The running profit carried into the next row. */
  function Carried(rows: seq<TargetLine>): real {
    if rows == [] then 0.0 else rows[|rows| - 1].cumulative
  }

  /** The rows of the first `k` targets, each paired with the share at the same position. */
  function RowsUpTo(targets: seq<Level>, shares: seq<real>, entry: real, ps: real, k: nat): (rows: seq<TargetLine>)
    requires k <= |targets| && k <= |shares|
    ensures |rows| == k
  {
    if k == 0 then []
    else
      var prev := RowsUpTo(targets, shares, entry, ps, k - 1);
      prev + [RowFor(targets[k - 1], shares[k - 1], entry, ps, Carried(prev))]
  }

  /** The take-profit table, or the out-of-range error when there are fewer shares than targets. */
  function RowsResult(targets: seq<Level>, shares: seq<real>, entry: real, ps: real): Result<seq<TargetLine>, CalcError> {
    if |shares| < |targets| then Err(ShareIndexOutOfRange(|shares|))
    else Ok(RowsUpTo(targets, shares, entry, ps, |targets|))
  }

  /** The results loop: one row per target, in order, with the running profit. */
  method ComputeRows(targets: seq<Level>, shares: seq<real>, entry: real, ps: real)
    returns (r: Result<seq<TargetLine>, CalcError>)
    ensures r == RowsResult(targets, shares, entry, ps)
  {
    var rows: seq<TargetLine> := [];
    var cumulative := 0.0;
    var i := 0;
    while i < |targets|
      invariant i <= |targets| && i <= |shares|
      invariant rows == RowsUpTo(targets, shares, entry, ps, i)
      invariant cumulative == Carried(rows)
    {
      if i >= |shares| {
        return Err(ShareIndexOutOfRange(i));
      }
      var units := ps * (shares[i] / 100.0);
      var sale := units * targets[i].price;
      var cost := units * entry;
      var profit := sale - cost;
      ghost var before := cumulative;
      cumulative := cumulative + profit;
      var row := TargetLine(targets[i].level, targets[i].price, targets[i].percentage, shares[i],
                           units, sale, profit, cumulative);
      assert row == RowFor(targets[i], shares[i], entry, ps, before);
      assert RowsUpTo(targets, shares, entry, ps, i + 1) == rows + [row];
      rows := rows + [row];
      i := i + 1;
    }
    return Ok(rows);
  }

  /** The sum of the rows' profits, in row order. */
  function TotalProfit(rows: seq<TargetLine>): real {
    if rows == [] then 0.0 else TotalProfit(rows[..|rows| - 1]) + rows[|rows| - 1].profit
  }

  /** The sum of the rows' sale values. */
  function TotalSales(rows: seq<TargetLine>): real {
    if rows == [] then 0.0 else TotalSales(rows[..|rows| - 1]) + rows[|rows| - 1].saleValue
  }

  /** The profit of rows `0..i`. */
  function ProfitThrough(rows: seq<TargetLine>, i: nat): real
    requires i < |rows|
  {
    TotalProfit(rows[..i + 1])
  }

  /** The table of a shorter prefix of the targets is a prefix of the table. */
  lemma {:induction false} RowsPrefix(targets: seq<Level>, shares: seq<real>, entry: real, ps: real, j: nat, k: nat)
    requires j <= k <= |targets| && k <= |shares|
    ensures RowsUpTo(targets, shares, entry, ps, k)[..j] == RowsUpTo(targets, shares, entry, ps, j)
    decreases k
  {
    var rows := RowsUpTo(targets, shares, entry, ps, k);
    if j < k {
      var prev := RowsUpTo(targets, shares, entry, ps, k - 1);
      RowsPrefix(targets, shares, entry, ps, j, k - 1);
      assert rows[..j] == prev[..j];
    } else {
      assert rows[..k] == rows;
    }
  }

  /**
   * Row `i` of the table is built from the `i`-th target and the `i`-th share after the
   * rows before it, whatever the targets' level numbers say.
   */
  lemma TableRowAt(targets: seq<Level>, shares: seq<real>, entry: real, ps: real, k: nat, i: nat)
    requires i < k <= |targets| && k <= |shares|
    ensures RowsUpTo(targets, shares, entry, ps, k)[i]
            == RowFor(targets[i], shares[i], entry, ps, Carried(RowsUpTo(targets, shares, entry, ps, i)))
  {
    RowsPrefix(targets, shares, entry, ps, i + 1, k);
    var rows := RowsUpTo(targets, shares, entry, ps, k);
    assert rows[i] == rows[..i + 1][i];
  }

  /** The running profit of the full table is its total profit. */
  lemma CarriedIsTotal(targets: seq<Level>, shares: seq<real>, entry: real, ps: real, k: nat)
    requires k <= |targets| && k <= |shares|
    ensures Carried(RowsUpTo(targets, shares, entry, ps, k)) == TotalProfit(RowsUpTo(targets, shares, entry, ps, k))
  {
    if k > 0 {
      var rows := RowsUpTo(targets, shares, entry, ps, k);
      var prev := RowsUpTo(targets, shares, entry, ps, k - 1);
      CarriedIsTotal(targets, shares, entry, ps, k - 1);
      assert rows[..k - 1] == prev;
    }
  }

  /** Each row's cumulative profit is the sum of the profits of that row and all rows before it. */
  lemma CumulativeIsRunningSum(targets: seq<Level>, shares: seq<real>, entry: real, ps: real, k: nat)
    requires k <= |targets| && k <= |shares|
    ensures var rows := RowsUpTo(targets, shares, entry, ps, k);
            forall i :: 0 <= i < k ==> rows[i].cumulative == ProfitThrough(rows, i)
  {
    var rows := RowsUpTo(targets, shares, entry, ps, k);
    forall i | 0 <= i < k
      ensures rows[i].cumulative == ProfitThrough(rows, i)
    {
      RowsPrefix(targets, shares, entry, ps, i + 1, k);
      CarriedIsTotal(targets, shares, entry, ps, i + 1);
      assert rows[i] == rows[..i + 1][i];
    }
  }

  /** The last row's cumulative profit is the total profit. */
  lemma LastCumulativeIsTotal(targets: seq<Level>, shares: seq<real>, entry: real, ps: real)
    requires 1 <= |targets| <= |shares|
    ensures var rows := RowsUpTo(targets, shares, entry, ps, |targets|);
            rows[|rows| - 1].cumulative == TotalProfit(rows)
  {
    CarriedIsTotal(targets, shares, entry, ps, |targets|);
  }

  /**
   * The total profit is the sales minus what the sold units cost at entry: the cost is
   * the position size times the entry price times the sum of the shares used, over 100.
   */
  lemma ProfitIsSalesMinusCost(targets: seq<Level>, shares: seq<real>, entry: real, ps: real, k: nat)
    requires k <= |targets| && k <= |shares|
    ensures var rows := RowsUpTo(targets, shares, entry, ps, k);
            TotalProfit(rows) == TotalSales(rows) - ps * entry * SumReal(shares[..k]) / 100.0
  {
    var rows := RowsUpTo(targets, shares, entry, ps, k);
    RowsCost(targets, shares, entry, ps, k);
    SumsMinusCosts(rows, shares, ps, entry);
    assert shares[..|rows|] == shares[..k];
  }

  /** Each row's sale value exceeds its profit by what its units cost at the entry price. */
  lemma RowsCost(targets: seq<Level>, shares: seq<real>, entry: real, ps: real, k: nat)
    requires k <= |targets| && k <= |shares|
    ensures var rows := RowsUpTo(targets, shares, entry, ps, k);
            forall i :: 0 <= i < k ==> rows[i].saleValue - rows[i].profit == ps * entry * shares[i] / 100.0
  {
    var rows := RowsUpTo(targets, shares, entry, ps, k);
    forall i | 0 <= i < k
      ensures rows[i].saleValue - rows[i].profit == ps * entry * shares[i] / 100.0
    {
      TableRowAt(targets, shares, entry, ps, k, i);
      RowForMeaning(targets[i], shares[i], entry, ps, Carried(RowsUpTo(targets, shares, entry, ps, i)));
    }
  }

  /** Summing rows whose sale value exceeds the profit by `c` times the share, over 100. */
  lemma {:induction false} SumsMinusCosts(rows: seq<TargetLine>, shares: seq<real>, ps: real, entry: real)
    requires |rows| <= |shares|
    requires forall i :: 0 <= i < |rows| ==> rows[i].saleValue - rows[i].profit == ps * entry * shares[i] / 100.0
    ensures TotalProfit(rows) == TotalSales(rows) - ps * entry * SumReal(shares[..|rows|]) / 100.0
  {
    var k := |rows|;
    if k > 0 {
      var prev := rows[..k - 1];
      SumsMinusCosts(prev, shares, ps, entry);
      assert shares[..k][..k - 1] == shares[..k - 1];
      assert SumReal(shares[..k]) == SumReal(shares[..k - 1]) + shares[k - 1];
      CostStep(TotalProfit(prev), TotalSales(prev), rows[k - 1].profit, rows[k - 1].saleValue,
               ps * entry, SumReal(shares[..k - 1]), shares[k - 1]);
    }
  }

  lemma CostStep(profitBefore: real, salesBefore: real, profit: real, sale: real, c: real, before: real, share: real)
    requires profitBefore == salesBefore - c * before / 100.0
    requires sale - profit == c * share / 100.0
    ensures profitBefore + profit == (salesBefore + sale) - c * (before + share) / 100.0
  {
  }

  /** The stop-loss table: each loss is the price move from entry times the position size. */
  datatype StopLine = StopLine(level: nat, price: real, percentFromEntry: real, loss: real, lossPercent: real)

  function StopRowOf(sl: Level, entry: real, ps: real, modal: int): StopLine
    requires modal != 0
  {
    var loss := (sl.price - entry) * ps;
    StopLine(sl.level, sl.price, sl.percentage, loss, loss / modal as real * 100.0)
  }

  function StopRows(stops: seq<Level>, entry: real, ps: real, modal: int): (rows: seq<StopLine>)
    requires modal != 0
  {
    seq(|stops|, i requires 0 <= i < |stops| => StopRowOf(stops[i], entry, ps, modal))
  }

  /** The stop-loss loop: one row per parsed stop loss, in order. */
  method ComputeStopLosses(stops: seq<Level>, entry: real, ps: real, modal: int) returns (rows: seq<StopLine>)
    requires modal != 0
    ensures |rows| == |stops|
    ensures forall i :: 0 <= i < |stops| ==> rows[i] == StopRowOf(stops[i], entry, ps, modal)
  {
    rows := [];
    for i := 0 to |stops|
      invariant |rows| == i
      invariant forall j :: 0 <= j < i ==> rows[j] == StopRowOf(stops[j], entry, ps, modal)
    {
      var loss := (stops[i].price - entry) * ps;
      rows := rows + [StopLine(stops[i].level, stops[i].price, stops[i].percentage, loss,
                                  loss / modal as real * 100.0)];
    }
  }

  /**
   * For a long position the loss is negative exactly when the stop is below the entry,
   * zero exactly when it is at the entry, and its percentage is taken against the modal.
   */
  lemma StopLossSign(sl: Level, entry: real, ps: real, modal: int)
    requires ps > 0.0 && modal > 0
    ensures var row := StopRowOf(sl, entry, ps, modal);
            && (row.loss < 0.0 <==> sl.price < entry)
            && (row.loss == 0.0 <==> sl.price == entry)
            && row.lossPercent * modal as real == row.loss * 100.0
  {
    var row := StopRowOf(sl, entry, ps, modal);
    assert row.loss == (sl.price - entry) * ps;
    if sl.price < entry {
      assert (entry - sl.price) * ps > 0.0;
    } else if sl.price > entry {
      assert (sl.price - entry) * ps > 0.0;
    }
  }

  /**
   * Against the modal, the stop loss costs the price move from entry in per cent times
   * the leverage: the leverage is not divided back out.
   */
  lemma StopLossPercentIsLeveraged(sl: Level, entry: real, modal: int, leverage: int)
    requires entry > 0.0 && modal > 0
    ensures StopRowOf(sl, entry, PositionSize(modal, leverage, entry), modal).lossPercent
            == (sl.price - entry) / entry * 100.0 * leverage as real
  {
    var m := modal as real;
    var ps := PositionSize(modal, leverage, entry);
    assert ps == m * leverage as real / entry;
    var d := sl.price - entry;
    calc {
      StopRowOf(sl, entry, ps, modal).lossPercent;
      d * ps / m * 100.0;
      { assert d * ps == d / entry * leverage as real * m; }
      d / entry * leverage as real * m / m * 100.0;
      d / entry * 100.0 * leverage as real;
    }
  }

  /** Return on the modal, in per cent. */
  function Roi(profit: real, modal: int): (r: real)
    requires modal > 0
    ensures r * modal as real == profit * 100.0
  {
    profit / modal as real * 100.0
  }

  /** The TP1 + TP2 partial exit: the first two rows' profit, or 0 with fewer than two rows. */
  function PartialProfit(rows: seq<TargetLine>): real {
    if |rows| >= 2 then rows[0].profit + rows[1].profit else 0.0
  }

  /** With two targets or more, the partial exit is the running profit shown on the second row. */
  lemma PartialIsSecondCumulative(targets: seq<Level>, shares: seq<real>, entry: real, ps: real)
    requires 2 <= |targets| <= |shares|
    ensures var rows := RowsUpTo(targets, shares, entry, ps, |targets|);
            PartialProfit(rows) == rows[1].cumulative == ProfitThrough(rows, 1)
  {
    var rows := RowsUpTo(targets, shares, entry, ps, |targets|);
    CumulativeIsRunningSum(targets, shares, entry, ps, |targets|);
    assert rows[..2][..1] == rows[..1];
    assert rows[..1][..0] == [];
    assert TotalProfit(rows[..1]) == rows[0].profit;
  }

  /**
   * The risk/reward ratio against the first stop loss: absent without stop losses, a
   * division by zero when the first stop loss is at the entry, and otherwise the
   * non-negative ratio whose product with the first loss is the total profit in size.
   */
  function RiskReward(total: real, stops: seq<StopLine>): (r: Result<Option<real>, CalcError>)
    ensures r.Err? <==> |stops| > 0 && stops[0].loss == 0.0
    ensures r.Ok? ==> (r.value.None? <==> stops == [])
    ensures r.Ok? && r.value.Some? ==> r.value.value >= 0.0 && r.value.value * Text.Abs(stops[0].loss) == Text.Abs(total)
  {
    if stops == [] then Ok(None)
    else if stops[0].loss == 0.0 then Err(FirstStopLossAtEntry)
    else Ok(Some(Text.Abs(total / stops[0].loss)))
  }

  /** Stop losses after the first never change the ratio. */
  lemma RiskRewardIgnoresLaterStops(total: real, a: seq<StopLine>, b: seq<StopLine>)
    requires |a| >= 1 && |b| >= 1 && a[0] == b[0]
    ensures RiskReward(total, a) == RiskReward(total, b)
  {
    assert a != [] && b != [];
  }

  /** Everything the calculator shows for one signal and configuration. */
  datatype ScenarioResult = ScenarioResult(
    effectiveModal: int,
    positionSize: real,
    shares: seq<real>,
    targets: seq<TargetLine>,
    stopLosses: seq<StopLine>,
    totalProfit: real,
    roi: real,
    partialProfit: real,
    partialRoi: real,
    riskReward: Option<real>)

  function ScenarioOf(sig: ParsedSignal, cfg: TradingConfig): Result<ScenarioResult, CalcError>
    requires Eligible(sig) && ValidConfig(cfg, |sig.targets|)
  {
    var entry := sig.entry.value;
    var ps := PositionSize(cfg.modal, cfg.leverage, entry);
    var shares := Shares(cfg.distribution, |sig.targets|);
    if shares.Err? then Err(AllocationFailed(shares.error))
    else
      var rows := RowsResult(sig.targets, shares.value, entry, ps);
      if rows.Err? then Err(rows.error)
      else
        var stops := StopRows(sig.stopLosses, entry, ps, cfg.modal);
        var total := TotalProfit(rows.value);
        var partial := PartialProfit(rows.value);
        var rr := RiskReward(total, stops);
        if rr.Err? then Err(rr.error)
        else
          Ok(ScenarioResult(cfg.modal * cfg.leverage, ps, shares.value, rows.value, stops,
                            total, Roi(total, cfg.modal), partial, Roi(partial, cfg.modal), rr.value))
  }

  /** The calculator block: allocation, the results loop, the stop-loss loop and the summary. */
  method Calculate(sig: ParsedSignal, cfg: TradingConfig) returns (r: Result<ScenarioResult, CalcError>)
    requires Eligible(sig) && ValidConfig(cfg, |sig.targets|)
    ensures r == ScenarioOf(sig, cfg)
  {
    var entry := sig.entry.value;
    var effective := cfg.modal * cfg.leverage;
    var ps := effective as real / entry;
    assert ps == PositionSize(cfg.modal, cfg.leverage, entry);
    var shares := Allocate(cfg.distribution, |sig.targets|);
    if shares.Err? {
      ScenarioAllocationFails(sig, cfg);
      return Err(AllocationFailed(shares.error));
    }
    var rows := ComputeRows(sig.targets, shares.value, entry, ps);
    if rows.Err? {
      ScenarioRowsFail(sig, cfg, shares.value);
      return Err(rows.error);
    }
    var stops := ComputeStopLosses(sig.stopLosses, entry, ps, cfg.modal);
    assert stops == StopRows(sig.stopLosses, entry, ps, cfg.modal);
    var total := TotalProfit(rows.value);
    var partial := PartialProfit(rows.value);
    var riskReward: Option<real> := None;
    if |stops| > 0 {
      if stops[0].loss == 0.0 {
        ScenarioStopAtEntry(sig, cfg, shares.value, rows.value);
        return Err(FirstStopLossAtEntry);
      }
      riskReward := Some(Text.Abs(total / stops[0].loss));
    }
    assert RiskReward(total, stops) == Ok(riskReward);
    r := Ok(ScenarioResult(effective, ps, shares.value, rows.value, stops,
                           total, total / cfg.modal as real * 100.0,
                           partial, partial / cfg.modal as real * 100.0, riskReward));
    ScenarioFromSteps(sig, cfg, ps, shares.value, rows.value, stops, riskReward);
  }

  /** The scenario fails with the allocation's error when the allocation fails. */
  lemma ScenarioAllocationFails(sig: ParsedSignal, cfg: TradingConfig)
    requires Eligible(sig) && ValidConfig(cfg, |sig.targets|)
    requires Shares(cfg.distribution, |sig.targets|).Err?
    ensures ScenarioOf(sig, cfg) == Err(AllocationFailed(Shares(cfg.distribution, |sig.targets|).error))
  {
  }

  /** The scenario fails with the results loop's error when that loop fails. */
  lemma ScenarioRowsFail(sig: ParsedSignal, cfg: TradingConfig, shares: seq<real>)
    requires Eligible(sig) && ValidConfig(cfg, |sig.targets|)
    requires Shares(cfg.distribution, |sig.targets|) == Ok(shares)
    requires RowsResult(sig.targets, shares, sig.entry.value, PositionSize(cfg.modal, cfg.leverage, sig.entry.value)).Err?
    ensures ScenarioOf(sig, cfg)
            == Err(RowsResult(sig.targets, shares, sig.entry.value, PositionSize(cfg.modal, cfg.leverage, sig.entry.value)).error)
  {
  }

  /** The scenario fails when the first stop loss sits at the entry. */
  lemma ScenarioStopAtEntry(sig: ParsedSignal, cfg: TradingConfig, shares: seq<real>, rows: seq<TargetLine>)
    requires Eligible(sig) && ValidConfig(cfg, |sig.targets|)
    requires Shares(cfg.distribution, |sig.targets|) == Ok(shares)
    requires RowsResult(sig.targets, shares, sig.entry.value, PositionSize(cfg.modal, cfg.leverage, sig.entry.value)) == Ok(rows)
    requires var stops := StopRows(sig.stopLosses, sig.entry.value, PositionSize(cfg.modal, cfg.leverage, sig.entry.value), cfg.modal);
             |stops| > 0 && stops[0].loss == 0.0
    ensures ScenarioOf(sig, cfg) == Err(FirstStopLossAtEntry)
  {
  }

  /** The scenario put together from its steps once each of them has succeeded. */
  lemma ScenarioFromSteps(sig: ParsedSignal, cfg: TradingConfig, ps: real, shares: seq<real>,
                          rows: seq<TargetLine>, stops: seq<StopLine>, rr: Option<real>)
    requires Eligible(sig) && ValidConfig(cfg, |sig.targets|)
    requires ps == PositionSize(cfg.modal, cfg.leverage, sig.entry.value)
    requires Shares(cfg.distribution, |sig.targets|) == Ok(shares)
    requires RowsResult(sig.targets, shares, sig.entry.value, ps) == Ok(rows)
    requires stops == StopRows(sig.stopLosses, sig.entry.value, ps, cfg.modal)
    requires RiskReward(TotalProfit(rows), stops) == Ok(rr)
    ensures ScenarioOf(sig, cfg)
            == Ok(ScenarioResult(cfg.modal * cfg.leverage, ps, shares, rows, stops,
                                 TotalProfit(rows), Roi(TotalProfit(rows), cfg.modal),
                                 PartialProfit(rows), Roi(PartialProfit(rows), cfg.modal), rr))
  {
  }

  /** The effective modal of a valid configuration is positive, and so is the position size. */
  lemma EffectiveModalPositive(cfg: TradingConfig, n: nat, entry: real)
    requires ValidConfig(cfg, n) && entry > 0.0
    ensures cfg.modal * cfg.leverage >= cfg.modal > 0
    ensures PositionSize(cfg.modal, cfg.leverage, entry) > 0.0
  {
    assert cfg.modal * cfg.leverage == cfg.modal + cfg.modal * (cfg.leverage - 1);
    assert cfg.modal * (cfg.leverage - 1) >= 0;
  }

  /**
   * The calculator fails exactly when the custom inputs run out of budget before the
   * last target, when a front- or back-loaded table is shorter than the list of targets
   * (5 or more), or when the first stop loss sits at the entry price.
   */
  lemma ScenarioFailsIff(sig: ParsedSignal, cfg: TradingConfig)
    requires Eligible(sig) && ValidConfig(cfg, |sig.targets|)
    ensures var n := |sig.targets|;
            var d := cfg.distribution;
            ScenarioOf(sig, cfg).Err? <==>
              || (d.Custom? && CustomShares(n, d.requested).Err?)
              || ((d.FrontLoaded? || d.BackLoaded?) && n >= 5)
              || (|sig.stopLosses| > 0 && sig.stopLosses[0].price == sig.entry.value)
  {
    var n := |sig.targets|;
    var d := cfg.distribution;
    var entry := sig.entry.value;
    EffectiveModalPositive(cfg, n, entry);
    var ps := PositionSize(cfg.modal, cfg.leverage, entry);
    var shares := Shares(d, n);
    if shares.Ok? {
      AllocationFitsIff(d, n);
      if |sig.stopLosses| > 0 {
        StopLossSign(sig.stopLosses[0], entry, ps, cfg.modal);
        assert StopRows(sig.stopLosses, entry, ps, cfg.modal)[0] == StopRowOf(sig.stopLosses[0], entry, ps, cfg.modal);
      }
    }
  }

  /** The pieces a successful scenario is made of. */
  lemma ScenarioParts(sig: ParsedSignal, cfg: TradingConfig)
    requires Eligible(sig) && ValidConfig(cfg, |sig.targets|) && ScenarioOf(sig, cfg).Ok?
    ensures var res := ScenarioOf(sig, cfg).value;
            var entry := sig.entry.value;
            var ps := PositionSize(cfg.modal, cfg.leverage, entry);
            && res.positionSize == ps
            && Shares(cfg.distribution, |sig.targets|) == Ok(res.shares)
            && |sig.targets| <= |res.shares|
            && res.targets == RowsUpTo(sig.targets, res.shares, entry, ps, |sig.targets|)
            && res.stopLosses == StopRows(sig.stopLosses, entry, ps, cfg.modal)
            && res.totalProfit == TotalProfit(res.targets)
            && res.partialProfit == PartialProfit(res.targets)
            && RiskReward(res.totalProfit, res.stopLosses) == Ok(res.riskReward)
            && res.roi == Roi(res.totalProfit, cfg.modal)
  {
  }

  /**
   * A successful scenario has one row per target and per stop loss; its total is the
   * last running profit, its partial exit the second running profit (0 with a single
   * target), and it has a risk/reward ratio exactly when there is a stop loss.
   */
  lemma ScenarioSummary(sig: ParsedSignal, cfg: TradingConfig)
    requires Eligible(sig) && ValidConfig(cfg, |sig.targets|) && ScenarioOf(sig, cfg).Ok?
    ensures var res := ScenarioOf(sig, cfg).value;
            && |res.targets| == |sig.targets| && |res.stopLosses| == |sig.stopLosses|
            && res.totalProfit == res.targets[|res.targets| - 1].cumulative
            && res.partialProfit == (if |res.targets| >= 2 then res.targets[1].cumulative else 0.0)
            && (res.riskReward.None? <==> sig.stopLosses == [])
            && res.roi * cfg.modal as real == res.totalProfit * 100.0
  {
    var res := ScenarioOf(sig, cfg).value;
    var entry := sig.entry.value;
    var ps := PositionSize(cfg.modal, cfg.leverage, entry);
    ScenarioParts(sig, cfg);
    LastCumulativeIsTotal(sig.targets, res.shares, entry, ps);
    if |sig.targets| >= 2 {
      PartialIsSecondCumulative(sig.targets, res.shares, entry, ps);
    }
  }

  /**
   * When the shares cover every target (Equal, Custom, or a table with 2 to 4 targets)
   * the whole position is sold, so the total profit is the sales minus the effective modal.
   */
  lemma FullExitProfit(sig: ParsedSignal, cfg: TradingConfig)
    requires Eligible(sig) && ValidConfig(cfg, |sig.targets|) && ScenarioOf(sig, cfg).Ok?
    requires cfg.distribution.Equal? || cfg.distribution.Custom? || 2 <= |sig.targets| <= 4
    ensures var res := ScenarioOf(sig, cfg).value;
            res.totalProfit == TotalSales(res.targets) - (cfg.modal * cfg.leverage) as real
  {
    var res := ScenarioOf(sig, cfg).value;
    var n := |sig.targets|;
    var entry := sig.entry.value;
    var ps := PositionSize(cfg.modal, cfg.leverage, entry);
    ScenarioParts(sig, cfg);
    AllocationFitsIff(cfg.distribution, n);
    ProfitIsSalesMinusCost(sig.targets, res.shares, entry, ps, n);
    assert res.shares[..n] == res.shares;
    CostOfShares(res.totalProfit, TotalSales(res.targets), ps, entry, (cfg.modal * cfg.leverage) as real, 100.0);
  }

  lemma CostOfShares(profit: real, sales: real, ps: real, entry: real, effective: real, sum: real)
    requires ps * entry == effective
    requires profit == sales - ps * entry * sum / 100.0
    ensures sales - profit == sum / 100.0 * effective
  {
  }

  /**
   * With a single target the front-loaded and back-loaded tables still hand out their
   * 4-target shares, so only 40 or 10 per cent of the position is sold: the cost of what
   * is sold is that fraction of the effective modal.
   */
  lemma SingleTargetSellsPart(sig: ParsedSignal, cfg: TradingConfig)
    requires Eligible(sig) && ValidConfig(cfg, |sig.targets|) && ScenarioOf(sig, cfg).Ok?
    requires |sig.targets| == 1 && (cfg.distribution.FrontLoaded? || cfg.distribution.BackLoaded?)
    ensures var res := ScenarioOf(sig, cfg).value;
            var fraction := if cfg.distribution.FrontLoaded? then 0.4 else 0.1;
            TotalSales(res.targets) - res.totalProfit == fraction * (cfg.modal * cfg.leverage) as real
  {
    var res := ScenarioOf(sig, cfg).value;
    var entry := sig.entry.value;
    var ps := PositionSize(cfg.modal, cfg.leverage, entry);
    ScenarioParts(sig, cfg);
    AllocationFitsIff(cfg.distribution, 1);
    ProfitIsSalesMinusCost(sig.targets, res.shares, entry, ps, 1);
    assert res.shares[..1][..0] == [];
    assert SumReal(res.shares[..1]) == res.shares[0];
    var fraction := if cfg.distribution.FrontLoaded? then 0.4 else 0.1;
    assert res.shares[0] == fraction * 100.0;
    CostOfShares(res.totalProfit, TotalSales(res.targets), ps, entry, (cfg.modal * cfg.leverage) as real, fraction * 100.0);
  }

  /**
   * Entry 0.0241, modal 10,000,000 in spot mode and one target at 0.0245 taking the
   * whole position: the position is 10^11 / 241 units (about 414,937,759) and the profit
   * is 4 * 10^7 / 241 (about 165,975), with no risk/reward ratio.
   */
  lemma SingleTargetExample()
    ensures var sig := ParsedSignal(Some("BTCUSDT"), Some(0.0241), None, None, [Level(1, 0.0245, 1.66)], []);
            var cfg := TradingConfig(10000000, LeverageFor(Spot, 10), Equal);
            && Eligible(sig) && ValidConfig(cfg, 1)
            && ScenarioOf(sig, cfg).Ok?
            && ScenarioOf(sig, cfg).value.positionSize == 100000000000.0 / 241.0
            && ScenarioOf(sig, cfg).value.totalProfit == 40000000.0 / 241.0
            && ScenarioOf(sig, cfg).value.riskReward.None?
  {
    var sig := ParsedSignal(Some("BTCUSDT"), Some(0.0241), None, None, [Level(1, 0.0245, 1.66)], []);
    var cfg := TradingConfig(10000000, LeverageFor(Spot, 10), Equal);
    var ps := PositionSize(10000000, 1, 0.0241);
    assert ps == 100000000000.0 / 241.0;
    assert EqualShares(1) == [100.0];
    var rows := RowsUpTo(sig.targets, [100.0], 0.0241, ps, 1);
    RowForMeaning(sig.targets[0], 100.0, 0.0241, ps, 0.0);
    assert rows[..0] == [];
    assert TotalProfit(rows) == rows[0].profit == ps * 0.0004;
  }
}
