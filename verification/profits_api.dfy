/**
 * The dashboard's profit endpoint (`GET /api/arbexecutor/profits`): read
 * the ledger file the bot writes and derive the figures the dashboard
 * shows, restricted to arbitrage trades (entries with a transaction hash,
 * a direction other than "SWAP_DETECTED" and a change from the previous
 * snapshot).
 *
 * Reading and parsing the file are inputs (`LogFile`), and so is the time
 * between the log's start and its latest snapshot, in milliseconds, which
 * the endpoint obtains by parsing the two ISO timestamps.
 */
module ProfitsApi {
  import opened Wrappers
  import opened BalanceLedger

  /** The parsed log; `history` is `None` when the field is missing. */
  datatype LogFile = LogFile(
    startTime: string,
    startingBalance: Option<real>,
    currentBalance: Option<real>,
    totalTrades: nat,
    history: Option<seq<Entry>>)

  datatype FileState = Missing | Unparsable | Parsed(log: LogFile)

  /** One row of `recentTrades`; absent and zero figures read as 0. */
  datatype TradeView = TradeView(
    timestamp: string,
    txHash: Option<string>,
    direction: Option<string>,
    profit: real,
    profitPercent: real,
    totalValue: real,
    totalProfit: real,
    totalProfitPercent: real)

  datatype Response =
    | NoHistory(totalProfit: real, totalProfitPercent: real, currentBalance: real,
             startingBalance: real, totalTrades: nat, recentTrades: seq<TradeView>)
    | ServerError
    | Stats(
        startTime: string,
        lastUpdateTime: string,
        hoursRunning: real,
        startBalance: real,
        currentBalance: real,
        totalProfit: real,
        totalProfitPercent: real,
        totalTrades: nat,
        arbTradeCount: nat,
        winningTrades: nat,
        losingTrades: nat,
        winRate: real,
        avgProfitPerTrade: real,
        profitPerHour: real,
        recentTrades: seq<TradeView>)

  const RecentTradeCount: int := 10
  const MsPerHour: real := 3600000.0
  const MinHours: real := 0.01

  /** `x || 0` on an optional number. */
  function OrZero(x: Option<real>): (r: real)
    ensures x.Some? ==> r == x.value
    ensures x.None? ==> r == 0.0
  {
    if x.Some? then x.value else 0.0
  }

  /** An arbitrage trade: truthy hash and direction, not a swap notice, and a change recorded. */
  predicate IsArbTrade(e: Entry)
  {
    && e.txHash.Some? && e.txHash.value != ""
    && e.direction.Some? && e.direction.value != ""
    && e.direction.value != "SWAP_DETECTED"
    && e.change.Some?
  }

  /** `history.filter(IsArbTrade)`, order kept. */
  function ArbTrades(h: seq<Entry>): (r: seq<Entry>)
    ensures |r| <= |h|
    ensures forall e :: e in r <==> e in h && IsArbTrade(e)
  {
    if h == [] then []
    else ArbTrades(h[..|h| - 1]) + (if IsArbTrade(h[|h| - 1]) then [h[|h| - 1]] else [])
  }

  /** The filter distributes over concatenation, so the arbitrage trades keep the log's order. */
  lemma {:induction false} ArbTradesAppend(a: seq<Entry>, b: seq<Entry>)
    ensures ArbTrades(a + b) == ArbTrades(a) + ArbTrades(b)
  {
    if b == [] {
      assert a + b == a;
    } else {
      assert (a + b)[..|a + b| - 1] == a + b[..|b| - 1];
      ArbTradesAppend(a, b[..|b| - 1]);
    }
  }

  function View(e: Entry): (v: TradeView)
    ensures v.timestamp == e.timestamp && v.totalValue == e.totalValueUSDC
    ensures e.change.Some? ==> v.profit == e.change.value.fromPrev
  {
    TradeView(e.timestamp, e.txHash, e.direction,
              if e.change.Some? then e.change.value.fromPrev else 0.0,
              if e.change.Some? then OrZero(e.change.value.percentFromPrev) else 0.0,
              e.totalValueUSDC, e.totalProfit, OrZero(e.totalProfitPercent))
  }

  function Views(s: seq<Entry>): (r: seq<TradeView>)
    ensures |r| == |s|
    ensures forall i :: 0 <= i < |s| ==> r[i] == View(s[i])
  {
    seq(|s|, i requires 0 <= i < |s| => View(s[i]))
  }

  /** `Math.max(0.01, ms / 3600000)`. */
  function HoursRunning(elapsedMs: real): (hours: real)
    ensures hours >= MinHours
    ensures hours == MinHours || hours * MsPerHour == elapsedMs
  {
    var h := elapsedMs / MsPerHour;
    if h > MinHours then h else MinHours
  }

  /** `count > 0 ? total / count : 0`. */
  function AveragePerTrade(total: real, count: nat): (avg: real)
    ensures count == 0 ==> avg == 0.0
    ensures count > 0 ==> avg * count as real == total
  {
    if count > 0 then total / count as real else 0.0
  }

  /** `total / hours`, the hourly rate over a positive running time. */
  function PerHour(total: real, hours: real): (rate: real)
    requires hours > 0.0
    ensures rate * hours == total
  {
    total / hours
  }

  /** The figures for a non-empty history. */
  function StatsOf(log: LogFile, h: seq<Entry>, elapsedMs: real): (r: Response)
    requires h != []
    ensures r.Stats?
  {
    var latest := h[|h| - 1];
    var startBalance := OrZero(log.startingBalance);
    var currentBalance :=
      if latest.totalValueUSDC != 0.0 then latest.totalValueUSDC else OrZero(log.currentBalance);
    var totalProfit := latest.totalProfit;
    var totalProfitPercent := OrZero(latest.totalProfitPercent);
    var arb := ArbTrades(h);
    var recent := Views(RecentBalances(arb, RecentTradeCount));
    var hours := HoursRunning(elapsedMs);
    var withChange := WithChange(arb);
    var winning := CountWinning(arb);
    var losing := CountLosing(arb);
    var winRate := WinRate(winning, |withChange|);
    Stats(log.startTime, latest.timestamp, hours, startBalance, currentBalance, totalProfit,
          totalProfitPercent, log.totalTrades, |arb|, winning, losing, winRate,
          AveragePerTrade(totalProfit, |arb|), PerHour(totalProfit, hours), recent)
  }

  /** `GET`: no data without a file or a history, an error when the file does not parse. */
  function GetProfits(file: FileState, elapsedMs: real): (r: Response)
    ensures r.NoHistory? <==> file.Missing? || (file.Parsed? && (file.log.history.None? || file.log.history.value == []))
    ensures r.ServerError? <==> file.Unparsable?
    ensures r.NoHistory? ==>
      && r.totalProfit == 0.0 && r.totalProfitPercent == 0.0 && r.currentBalance == 0.0
      && r.startingBalance == 0.0 && r.totalTrades == 0 && r.recentTrades == []
  {
    match file
      case Missing => NoHistory(0.0, 0.0, 0.0, 0.0, 0, [])
      case Unparsable => ServerError
      case Parsed(log) =>
        if log.history.None? || log.history.value == [] then NoHistory(0.0, 0.0, 0.0, 0.0, 0, [])
        else StatsOf(log, log.history.value, elapsedMs)
  }

  /**
   * The statistics of a non-empty history: the arbitrage trades are
   * counted, the recent trades are the last ten of them most recent first,
   * wins and losses never exceed the trades with a change, which are all
   * the arbitrage trades, the win rate is a percentage, the average and
   * per-hour profits are the total profit shared out, and the profit is
   * the latest entry's.
   */
  lemma StatsProperties(log: LogFile, elapsedMs: real)
    requires log.history.Some? && log.history.value != []
    ensures var h := log.history.value;
      var r := GetProfits(Parsed(log), elapsedMs);
      var arb := ArbTrades(h);
      && r.Stats?
      && r.startTime == log.startTime && r.lastUpdateTime == h[|h| - 1].timestamp
      && r.startBalance == OrZero(log.startingBalance)
      && (h[|h| - 1].totalValueUSDC != 0.0 ==> r.currentBalance == h[|h| - 1].totalValueUSDC)
      && (h[|h| - 1].totalValueUSDC == 0.0 ==> r.currentBalance == OrZero(log.currentBalance))
      && r.totalProfit == h[|h| - 1].totalProfit
      && r.totalProfitPercent == OrZero(h[|h| - 1].totalProfitPercent)
      && r.totalTrades == log.totalTrades
      && r.arbTradeCount == |arb|
      && |r.recentTrades| == (if |arb| < 10 then |arb| else 10)
      && (forall i :: 0 <= i < |r.recentTrades| ==> r.recentTrades[i] == View(arb[|arb| - 1 - i]))
      && |WithChange(arb)| == |arb|
      && r.winningTrades + r.losingTrades <= |arb|
      && 0.0 <= r.winRate <= 100.0
      && (|arb| == 0 ==> r.winRate == 0.0)
      && r.avgProfitPerTrade == AveragePerTrade(r.totalProfit, |arb|)
      && r.hoursRunning == HoursRunning(elapsedMs)
      && r.profitPerHour == PerHour(r.totalProfit, r.hoursRunning)
  {
    var h := log.history.value;
    var arb := ArbTrades(h);
    var r := StatsOf(log, h, elapsedMs);
    assert GetProfits(Parsed(log), elapsedMs) == r;
    var recent := RecentBalances(arb, RecentTradeCount);
    assert r.recentTrades == Views(recent);
    forall i | 0 <= i < |recent|
      ensures r.recentTrades[i] == View(arb[|arb| - 1 - i])
    {
      assert recent[i] == arb[|arb| - 1 - i];
    }
    WinsAndLossesBounded(arb);
    ArbTradesHaveChange(arb);
  }

  /** Every arbitrage trade carries a change, so the change filter keeps them all. */
  lemma {:induction false} ArbTradesHaveChange(arb: seq<Entry>)
    requires forall e :: e in arb ==> IsArbTrade(e)
    ensures WithChange(arb) == arb
  {
    if arb != [] {
      var init := arb[..|arb| - 1];
      assert forall e :: e in init ==> e in arb;
      ArbTradesHaveChange(init);
      assert arb[|arb| - 1] in arb;
      InitLast(arb);
    }
  }

  lemma InitLast<T>(s: seq<T>)
    requires s != []
    ensures s[..|s| - 1] + [s[|s| - 1]] == s
  {
  }

  /**
   * On a log the ledger wrote, the first snapshot is never an arbitrage
   * trade (it has no change), the starting balance reads as the first
   * snapshot's value, and the total profit is the last value minus it.
   */
  lemma StatsOfWellFormedLedger(log: LogFile, elapsedMs: real)
    requires log.history.Some? && log.history.value != []
    requires WellFormed(log.startingBalance, log.currentBalance, log.totalTrades, log.history.value)
    ensures var h := log.history.value;
      var r := GetProfits(Parsed(log), elapsedMs);
      && !IsArbTrade(h[0])
      && r.startBalance == h[0].totalValueUSDC
      && r.totalProfit == h[|h| - 1].totalValueUSDC - h[0].totalValueUSDC
      && r.currentBalance == h[|h| - 1].totalValueUSDC
      && r.totalTrades == |h|
  {
    var h := log.history.value;
    assert EntryConsistent(h, log.startingBalance.value, 0);
    assert EntryConsistent(h, log.startingBalance.value, |h| - 1);
    assert h[..1] == [h[0]];
    assert ArbTrades(h[..1]) == ArbTrades([]) + [];
  }
}
