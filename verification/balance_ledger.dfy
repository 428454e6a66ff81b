/**
 * The bot's balance ledger: an append-only history of balance snapshots
 * with a starting balance fixed by the first snapshot, the change from the
 * previous snapshot, the profit since the start and a snapshot counter; the
 * summary drawn from it (running-peak maximum drawdown, win rate), the
 * most-recent-first selection and the CSV export.
 *
 * Numbers are JavaScript floats in the bot and `real` here, without
 * rounding.  A percentage whose divisor is zero is Infinity or NaN in
 * JavaScript and is written to the JSON log as `null`; a stored percentage
 * is therefore an `Option<real>`.  The log file itself (load on every call,
 * save after every change) is the state of the `BalanceLog` object.
 */
module BalanceLedger {
  import opened Wrappers
  import opened JsNum

  /** The change from the previous snapshot; the first snapshot has none. */
  datatype Change = Change(fromPrev: real, percentFromPrev: Option<real>)

  datatype Entry = Entry(
    timestamp: string,
    balUSDC: real,
    balYUSDC: real,
    sharePrice: real,
    totalValueUSDC: real,
    txHash: Option<string>,
    direction: Option<string>,
    swapRawFee: Option<real>,
    swapFeePercent: Option<real>,
    swapFeeWithFlag: Option<real>,
    swapToward: Option<bool>,
    swapDevBps: Option<real>,
    change: Option<Change>,
    totalProfit: real,
    totalProfitPercent: Option<real>)

  /** What a caller hands to `logBalance`; `None` is an absent or null field. */
  datatype BalanceData = BalanceData(
    balUSDC: real,
    balYUSDC: real,
    sharePrice: real,
    totalBal: real,
    txHash: Option<string>,
    direction: Option<string>,
    swapRawFee: Option<real>,
    swapFeePercent: Option<real>,
    swapFeeWithFlag: Option<real>,
    swapToward: Option<bool>,
    swapDevBps: Option<real>)

  /** `s || null` on a string: the empty string is falsy. */
  function TextOrNull(s: Option<string>): (r: Option<string>)
    ensures r.Some? <==> s.Some? && s.value != ""
    ensures r.Some? ==> r == s
  {
    if s.Some? && s.value != "" then s else None
  }

  /** `x || null` on a number: zero is falsy. */
  function NumberOrNull(x: Option<real>): (r: Option<real>)
    ensures r.Some? <==> x.Some? && x.value != 0.0
    ensures r.Some? ==> r == x
  {
    if x.Some? && x.value != 0.0 then x else None
  }

  /** The change recorded for a snapshot worth `value` after one worth `prev`. */
  function ChangeFrom(prev: real, value: real): (c: Change)
    ensures prev + c.fromPrev == value
    ensures prev != 0.0 <==> c.percentFromPrev.Some?
    ensures c.percentFromPrev.Some? ==> c.percentFromPrev.value * prev == c.fromPrev * 100.0
  {
    var change := value - prev;
    Change(change, Stored(Percent(change, prev)))
  }

  /**
   * The entry `logBalance` appends to `history` when the starting balance
   * (after it has been fixed) is `start`.
   */
  function EntryFor(history: seq<Entry>, start: real, now: string, d: BalanceData): (e: Entry)
    ensures e.totalValueUSDC == d.totalBal && e.timestamp == now
    ensures e.change.None? <==> history == []
    ensures history != [] ==> e.change == Some(ChangeFrom(history[|history| - 1].totalValueUSDC, d.totalBal))
    ensures e.totalProfit == d.totalBal - start
    ensures e.totalProfitPercent == Stored(Percent(d.totalBal - start, start))
  {
    Entry(now, d.balUSDC, d.balYUSDC, d.sharePrice, d.totalBal,
          TextOrNull(d.txHash), TextOrNull(d.direction),
          NumberOrNull(d.swapRawFee), NumberOrNull(d.swapFeePercent),
          NumberOrNull(d.swapFeeWithFlag), d.swapToward, NumberOrNull(d.swapDevBps),
          if history == [] then None
          else Some(ChangeFrom(history[|history| - 1].totalValueUSDC, d.totalBal)),
          d.totalBal - start, Stored(Percent(d.totalBal - start, start)))
  }

  /** Entry i of h carries the change and profit figures the ledger promises. */
  predicate EntryConsistent(h: seq<Entry>, start: real, i: int)
    requires 0 <= i < |h|
  {
    && h[i].totalProfit == h[i].totalValueUSDC - start
    && h[i].totalProfitPercent == Stored(Percent(h[i].totalProfit, start))
    && (i == 0 ==> h[i].change.None?)
    && (i > 0 ==> h[i].change == Some(ChangeFrom(h[i - 1].totalValueUSDC, h[i].totalValueUSDC)))
  }

  /**
   * The ledger invariant: an empty log has no starting or current balance;
   * otherwise the starting balance is the first snapshot's value, the
   * current balance the last one's, every entry is consistent, and the
   * counter equals the number of snapshots.
   */
  predicate WellFormed(start: Option<real>, current: Option<real>, trades: nat, h: seq<Entry>)
  {
    && trades == |h|
    && (h == [] ==> start.None? && current.None?)
    && (h != [] ==>
          && start == Some(h[0].totalValueUSDC)
          && current == Some(h[|h| - 1].totalValueUSDC)
          && forall i :: 0 <= i < |h| ==> EntryConsistent(h, start.value, i))
  }

  class BalanceLog {
    var startTime: string
    var startingBalance: Option<real>
    var currentBalance: Option<real>
    var totalTrades: nat
    var history: seq<Entry>

    predicate Valid()
      reads this
    {
      WellFormed(startingBalance, currentBalance, totalTrades, history)
    }

    /** The shape written when no log file exists yet. */
    constructor Init(now: string)
      ensures Valid()
      ensures startTime == now && startingBalance == None && currentBalance == None
      ensures totalTrades == 0 && history == []
    {
      startTime := now;
      startingBalance := None;
      currentBalance := None;
      totalTrades := 0;
      history := [];
    }

    /** `resetBalanceLog`: back to the initial shape, with a new start time. */
    method Reset(now: string)
      modifies this
      ensures Valid()
      ensures startTime == now && startingBalance == None && currentBalance == None
      ensures totalTrades == 0 && history == []
    {
      startTime := now;
      startingBalance := None;
      currentBalance := None;
      totalTrades := 0;
      history := [];
    }

    /**
     * `logBalance`: fix the starting balance on the first snapshot, append
     * one entry, set the current balance and count the snapshot.
     */
    method LogBalance(now: string, d: BalanceData) returns (entry: Entry)
      requires Valid()
      modifies this
      ensures Valid()
      ensures startingBalance == if old(startingBalance).None? then Some(d.totalBal) else old(startingBalance)
      ensures entry == EntryFor(old(history), startingBalance.value, now, d)
      ensures history == old(history) + [entry]
      ensures currentBalance == Some(d.totalBal)
      ensures totalTrades == old(totalTrades) + 1
      ensures startTime == old(startTime)
    {
      if startingBalance.None? {
        startingBalance := Some(d.totalBal);
      }
      var change: Option<Change> := None;
      if |history| > 0 {
        var prevBalance := history[|history| - 1].totalValueUSDC;
        var diff := d.totalBal - prevBalance;
        change := Some(Change(diff, Stored(Percent(diff, prevBalance))));
      }
      var totalProfit := d.totalBal - startingBalance.value;
      entry := Entry(now, d.balUSDC, d.balYUSDC, d.sharePrice, d.totalBal,
                     TextOrNull(d.txHash), TextOrNull(d.direction),
                     NumberOrNull(d.swapRawFee), NumberOrNull(d.swapFeePercent),
                     NumberOrNull(d.swapFeeWithFlag), d.swapToward, NumberOrNull(d.swapDevBps),
                     change, totalProfit, Stored(Percent(totalProfit, startingBalance.value)));
      assert entry == EntryFor(history, startingBalance.value, now, d);
      AppendKeepsWellFormed(startingBalance.value, history, now, d);
      history := history + [entry];
      currentBalance := Some(d.totalBal);
      totalTrades := totalTrades + 1;
    }

    /**
     * `getBalanceSummary`: `NoData` on an empty history; otherwise the
     * figures below, with the maximum drawdown computed by a single pass
     * that raises the peak before measuring the fall from it.
     */
    method GetBalanceSummary() returns (s: Summary)
      requires Valid()
      ensures s.NoData? <==> history == []
      ensures s.Summary? ==>
        && s.startTime == startTime
        && s.lastUpdateTime == history[|history| - 1].timestamp
        && s.startBalance == history[0].totalValueUSDC
        && s.currentBalance == history[|history| - 1].totalValueUSDC
        && s.totalProfit == history[|history| - 1].totalProfit
        && s.totalProfitPercent == Percent(s.totalProfit, s.startBalance)
        && s.totalTrades == |history|
        && s.avgProfitPerTrade == Divide(s.totalProfit, |history| as real)
        && s.avgProfitPerTrade.Finite?
        && s.maxDrawdown == MaxDrawdown(s.startBalance, history, |history|)
        && (s.maxDrawdown.PosInf? || (s.maxDrawdown.Finite? && s.maxDrawdown.r >= 0.0))
        && s.winningTrades == CountWinning(history)
        && s.losingTrades == CountLosing(history)
        && s.winningTrades + s.losingTrades <= |history| - 1
        && s.winRate == WinRate(s.winningTrades, |WithChange(history)|)
        && 0.0 <= s.winRate <= 100.0
    {
      if |history| == 0 {
        return NoData;
      }
      var startBalance := startingBalance.value;
      var current := currentBalance.value;
      var totalProfit := current - startBalance;
      var totalProfitPercent := Percent(totalProfit, startBalance);

      var maxBalance := startBalance;
      var maxDrawdown := Finite(0.0);
      var i := 0;
      while i < |history|
        invariant 0 <= i <= |history|
        invariant maxBalance == Peak(startBalance, history, i)
        invariant maxDrawdown == MaxDrawdown(startBalance, history, i)
      {
        var value := history[i].totalValueUSDC;
        if value > maxBalance {
          maxBalance := value;
        }
        var drawdown := Percent(maxBalance - value, maxBalance);
        if Greater(drawdown, maxDrawdown) {
          maxDrawdown := drawdown;
        }
        i := i + 1;
      }

      var avgProfitPerTrade := Divide(totalProfit, totalTrades as real);
      var withChange := WithChange(history);
      var winningTrades := CountWinning(history);
      var losingTrades := CountLosing(history);
      var winRate := WinRate(winningTrades, |withChange|);

      assert EntryConsistent(history, startBalance, |history| - 1);
      MaxDrawdownNonNegative(startBalance, history, |history|);
      WithChangeOfWellFormed(startBalance, history);
      WinsAndLossesBounded(history);
      s := Summary(startTime, history[|history| - 1].timestamp, startBalance, current,
                   totalProfit, totalProfitPercent, totalTrades, avgProfitPerTrade,
                   maxDrawdown, winningTrades, losingTrades, winRate);
    }
  }

  /** Appending `EntryFor` keeps every earlier entry and adds a consistent one. */
  lemma AppendKeepsWellFormed(start: real, h: seq<Entry>, now: string, d: BalanceData)
    requires h == [] || (h[0].totalValueUSDC == start && forall i :: 0 <= i < |h| ==> EntryConsistent(h, start, i))
    requires h == [] ==> start == d.totalBal
    ensures var h' := h + [EntryFor(h, start, now, d)];
            h'[0].totalValueUSDC == start && forall i :: 0 <= i < |h'| ==> EntryConsistent(h', start, i)
  {
    var h' := h + [EntryFor(h, start, now, d)];
    forall i | 0 <= i < |h'|
      ensures EntryConsistent(h', start, i)
    {
      if i < |h| {
        assert EntryConsistent(h, start, i);
        assert h'[i] == h[i];
        if i > 0 { assert h'[i - 1] == h[i - 1]; }
      }
    }
  }

  /** The sum of the recorded changes from the first snapshot up to snapshot k. */
  function SumOfChanges(h: seq<Entry>, k: nat): real
    requires k <= |h|
  {
    if k == 0 then 0.0
    else SumOfChanges(h, k - 1) + (if h[k - 1].change.Some? then h[k - 1].change.value.fromPrev else 0.0)
  }

  /**
   * The changes telescope: their sum is the last value minus the first,
   * which is exactly the last entry's profit since the start.
   */
  lemma {:induction false} ChangesSumToProfit(start: Option<real>, current: Option<real>, trades: nat, h: seq<Entry>, k: nat)
    requires WellFormed(start, current, trades, h)
    requires 0 < k <= |h|
    ensures SumOfChanges(h, k) == h[k - 1].totalValueUSDC - h[0].totalValueUSDC
    ensures SumOfChanges(h, k) == h[k - 1].totalProfit
  {
    assert EntryConsistent(h, start.value, k - 1);
    if k > 1 {
      ChangesSumToProfit(start, current, trades, h, k - 1);
    }
  }

  // ---------------------------------------------------------------------
  // Summary

  datatype Summary =
    | NoData
    | Summary(
        startTime: string,
        lastUpdateTime: string,
        startBalance: real,
        currentBalance: real,
        totalProfit: real,
        totalProfitPercent: JsNumber,
        totalTrades: nat,
        avgProfitPerTrade: JsNumber,
        maxDrawdown: JsNumber,
        winningTrades: nat,
        losingTrades: nat,
        winRate: real)

  /** The running peak after the first k snapshots, starting from `start`. */
  function Peak(start: real, h: seq<Entry>, k: nat): real
    requires k <= |h|
  {
    if k == 0 then start
    else
      var p := Peak(start, h, k - 1);
      if h[k - 1].totalValueUSDC > p then h[k - 1].totalValueUSDC else p
  }

  /** One step of the drawdown pass: keep the larger of the old maximum and the fall from the peak. */
  function DrawdownStep(peak: real, value: real, maxSoFar: JsNumber): JsNumber
  {
    var drawdown := Percent(peak - value, peak);
    if Greater(drawdown, maxSoFar) then drawdown else maxSoFar
  }

  /** The maximum drawdown after the first k snapshots. */
  function MaxDrawdown(start: real, h: seq<Entry>, k: nat): JsNumber
    requires k <= |h|
  {
    if k == 0 then Finite(0.0)
    else DrawdownStep(Peak(start, h, k), h[k - 1].totalValueUSDC, MaxDrawdown(start, h, k - 1))
  }

  /** The peak starts at the starting balance, never falls, and covers every snapshot seen. */
  lemma {:induction false} PeakBounds(start: real, h: seq<Entry>, k: nat)
    requires k <= |h|
    ensures Peak(start, h, k) >= start
    ensures forall i :: 0 <= i < k ==> Peak(start, h, k) >= h[i].totalValueUSDC
    ensures forall j :: 0 <= j <= k ==> Peak(start, h, j) <= Peak(start, h, k)
  {
    if k > 0 {
      PeakBounds(start, h, k - 1);
    }
  }

  /** The maximum drawdown is never NaN or negative: it starts at 0 and only grows under `>`. */
  lemma {:induction false} MaxDrawdownNonNegative(start: real, h: seq<Entry>, k: nat)
    requires k <= |h|
    ensures var m := MaxDrawdown(start, h, k);
            m.PosInf? || (m.Finite? && m.r >= 0.0)
  {
    if k > 0 {
      MaxDrawdownNonNegative(start, h, k - 1);
    }
  }

  /** The fall from a positive peak to a value between 0 and the peak is at most 100%. */
  lemma DrawdownPercentBounds(peak: real, value: real)
    requires peak > 0.0 && 0.0 <= value <= peak
    ensures Percent(peak - value, peak).Finite?
    ensures 0.0 <= Percent(peak - value, peak).r <= 100.0
  {
    var p := Percent(peak - value, peak).r;
    assert p * peak == (peak - value) * 100.0;
  }

  /**
   * With a positive starting balance and no negative snapshot, the maximum
   * drawdown is a finite percentage between 0 and 100.
   */
  lemma {:induction false} MaxDrawdownAtMost100(start: real, h: seq<Entry>, k: nat)
    requires k <= |h| && start > 0.0
    requires forall i :: 0 <= i < |h| ==> h[i].totalValueUSDC >= 0.0
    ensures MaxDrawdown(start, h, k).Finite?
    ensures 0.0 <= MaxDrawdown(start, h, k).r <= 100.0
  {
    if k > 0 {
      MaxDrawdownAtMost100(start, h, k - 1);
      PeakBounds(start, h, k);
      DrawdownPercentBounds(Peak(start, h, k), h[k - 1].totalValueUSDC);
    }
  }

  /** The entries that carry a change from the previous snapshot. */
  function WithChange(h: seq<Entry>): (r: seq<Entry>)
    ensures |r| <= |h|
    ensures forall e :: e in r <==> e in h && e.change.Some?
  {
    if h == [] then []
    else WithChange(h[..|h| - 1]) + (if h[|h| - 1].change.Some? then [h[|h| - 1]] else [])
  }

  /** Entries whose change is positive. */
  function CountWinning(h: seq<Entry>): nat
  {
    if h == [] then 0
    else CountWinning(h[..|h| - 1]) + (if h[|h| - 1].change.Some? && h[|h| - 1].change.value.fromPrev > 0.0 then 1 else 0)
  }

  /** Entries whose change is negative. */
  function CountLosing(h: seq<Entry>): nat
  {
    if h == [] then 0
    else CountLosing(h[..|h| - 1]) + (if h[|h| - 1].change.Some? && h[|h| - 1].change.value.fromPrev < 0.0 then 1 else 0)
  }

  /**
   * Wins and losses never outnumber the entries with a change; an entry
   * whose change is exactly zero is in neither count.
   */
  lemma {:induction false} WinsAndLossesBounded(h: seq<Entry>)
    ensures CountWinning(h) + CountLosing(h) <= |WithChange(h)|
  {
    if h != [] {
      WinsAndLossesBounded(h[..|h| - 1]);
    }
  }

  /** In a well-formed ledger exactly the snapshots after the first carry a change. */
  lemma {:induction false} WithChangeOfWellFormed(start: real, h: seq<Entry>)
    requires h != [] && forall i :: 0 <= i < |h| ==> EntryConsistent(h, start, i)
    ensures |WithChange(h)| == |h| - 1
  {
    assert EntryConsistent(h, start, |h| - 1);
    if |h| > 1 {
      var h' := h[..|h| - 1];
      forall i | 0 <= i < |h'|
        ensures EntryConsistent(h', start, i)
      {
        assert EntryConsistent(h, start, i);
      }
      WithChangeOfWellFormed(start, h');
    }
  }

  /** `(winning / withChange) * 100`, or 0 when no entry has a change. */
  function WinRate(winning: nat, withChange: nat): (r: real)
    ensures withChange == 0 ==> r == 0.0
    ensures winning <= withChange ==> 0.0 <= r <= 100.0
    ensures withChange > 0 ==> r * withChange as real == winning as real * 100.0
  {
    if withChange > 0 then
      var q := winning as real / withChange as real;
      assert winning <= withChange ==> q <= 1.0;
      q * 100.0
    else 0.0
  }

  // ---------------------------------------------------------------------
  // Recent entries

  function Reverse(s: seq<Entry>): (r: seq<Entry>)
    ensures |r| == |s|
    ensures forall i :: 0 <= i < |s| ==> r[i] == s[|s| - 1 - i]
  {
    if s == [] then [] else Reverse(s[1..]) + [s[0]]
  }

  /** Where `Array.prototype.slice(k)` starts on a list of length len. */
  function SliceStart(len: nat, k: int): (i: nat)
    ensures i <= len
  {
    if k < 0 then (if len + k > 0 then len + k else 0)
    else if k < len then k else len
  }

  /**
   * `getRecentBalances(count)`: `history.slice(-count).reverse()`, the
   * last `count` entries most recent first.  `slice(-0)` is `slice(0)`, so
   * a count of 0 returns the whole history reversed.
   */
  function RecentBalances(h: seq<Entry>, count: int): (r: seq<Entry>)
    ensures count > 0 ==> |r| == if count < |h| then count else |h|
    ensures count == 0 ==> |r| == |h|
    ensures count < 0 ==> |r| == if -count < |h| then |h| + count else 0
    ensures forall i :: 0 <= i < |r| ==> r[i] == h[|h| - 1 - i]
  {
    Reverse(h[SliceStart(|h|, -count)..])
  }

  // ---------------------------------------------------------------------
  // CSV export

  /** `parts.join(sep)`. */
  function Join(parts: seq<string>, sep: char): string
  {
    if |parts| == 0 then ""
    else if |parts| == 1 then parts[0]
    else Join(parts[..|parts| - 1], sep) + [sep] + parts[|parts| - 1]
  }

  function Occurrences(s: string, c: char): nat
  {
    if s == [] then 0 else Occurrences(s[..|s| - 1], c) + (if s[|s| - 1] == c then 1 else 0)
  }

  lemma {:induction false} OccurrencesAppend(a: string, b: string, c: char)
    ensures Occurrences(a + b, c) == Occurrences(a, c) + Occurrences(b, c)
  {
    if b == [] {
      assert a + b == a;
    } else {
      assert (a + b)[..|a + b| - 1] == a + b[..|b| - 1];
      assert (a + b)[|a + b| - 1] == b[|b| - 1];
      OccurrencesAppend(a, b[..|b| - 1], c);
    }
  }

  lemma {:induction false} OccurrencesAbsent(s: string, c: char)
    requires c !in s
    ensures Occurrences(s, c) == 0
  {
    if s != [] {
      OccurrencesAbsent(s[..|s| - 1], c);
    }
  }

  /** Joining n separator-free parts puts exactly n - 1 separators in the result. */
  lemma {:induction false} JoinSeparators(parts: seq<string>, sep: char)
    requires |parts| >= 1
    requires forall p :: p in parts ==> sep !in p
    ensures Occurrences(Join(parts, sep), sep) == |parts| - 1
  {
    var last := parts[|parts| - 1];
    OccurrencesAbsent(last, sep);
    if |parts| > 1 {
      var init := parts[..|parts| - 1];
      JoinSeparators(init, sep);
      OccurrencesAppend(Join(init, sep) + [sep], last, sep);
      OccurrencesAppend(Join(init, sep), [sep], sep);
      assert Occurrences([sep], sep) == 1 by {
        assert [sep][..0] == [];
      }
    }
  }

  const CsvColumns: seq<string> := [
    "Timestamp", "USDC Balance", "yUSDC Balance", "Share Price", "Total Value USD",
    "Change From Prev", "Change %", "Total Profit", "Total Profit %", "Direction", "TX Hash"]

  /** `x || ""` on a number: absent, null and zero all export as empty. */
  function NumberCell(x: Option<real>, show: real -> string): (cell: string)
    ensures x.None? || x.value == 0.0 ==> cell == ""
  {
    if x.Some? && x.value != 0.0 then show(x.value) else ""
  }

  /** `s || ""` on a string. */
  function TextCell(s: Option<string>): string
  {
    if s.Some? then s.value else ""
  }

  /** The eleven cells of an entry's row, in column order; `show` is `Number#toString`. */
  function CsvCells(e: Entry, show: real -> string): (cells: seq<string>)
    ensures |cells| == |CsvColumns|
    ensures cells[0] == e.timestamp
    ensures e.change.None? ==> cells[5] == "" && cells[6] == ""
    ensures e.totalProfit == 0.0 ==> cells[7] == ""
  {
    [e.timestamp, show(e.balUSDC), show(e.balYUSDC), show(e.sharePrice), show(e.totalValueUSDC),
     NumberCell(if e.change.Some? then Some(e.change.value.fromPrev) else None, show),
     NumberCell(if e.change.Some? then e.change.value.percentFromPrev else None, show),
     NumberCell(Some(e.totalProfit), show),
     NumberCell(e.totalProfitPercent, show),
     TextCell(e.direction),
     TextCell(e.txHash)]
  }

  function CsvRows(h: seq<Entry>, show: real -> string): (rows: seq<string>)
    ensures |rows| == |h|
    ensures forall i :: 0 <= i < |h| ==> rows[i] == Join(CsvCells(h[i], show), ',')
  {
    seq(|h|, i requires 0 <= i < |h| => Join(CsvCells(h[i], show), ','))
  }

  /** `exportToCSV`'s file contents; `None` when there is nothing to export. */
  function ExportCsv(h: seq<Entry>, show: real -> string): (csv: Option<string>)
    ensures csv.None? <==> h == []
  {
    if h == [] then None
    else Some(Join([Join(CsvColumns, ',')] + CsvRows(h, show), '\n'))
  }

  /** No newline in any text the export writes. */
  ghost predicate SingleLine(h: seq<Entry>, show: real -> string)
  {
    && (forall x :: '\n' !in show(x))
    && (forall e :: e in h ==> '\n' !in e.timestamp)
    && (forall e :: e in h && e.txHash.Some? ==> '\n' !in e.txHash.value)
    && (forall e :: e in h && e.direction.Some? ==> '\n' !in e.direction.value)
  }

  /** Concatenation keeps a character out when both halves keep it out. */
  lemma NotInConcat(a: string, b: string, c: char)
    requires c !in a && c !in b
    ensures c !in a + b
  {
  }

  lemma {:induction false} JoinKeepsOut(parts: seq<string>, sep: char, c: char)
    requires sep != c
    requires forall p :: p in parts ==> c !in p
    ensures c !in Join(parts, sep)
  {
    if |parts| > 1 {
      JoinKeepsOut(parts[..|parts| - 1], sep, c);
      NotInConcat(Join(parts[..|parts| - 1], sep), [sep], c);
      NotInConcat(Join(parts[..|parts| - 1], sep) + [sep], parts[|parts| - 1], c);
    }
  }

  lemma RowSingleLine(e: Entry, show: real -> string)
    requires forall x :: '\n' !in show(x)
    requires '\n' !in e.timestamp
    requires e.txHash.Some? ==> '\n' !in e.txHash.value
    requires e.direction.Some? ==> '\n' !in e.direction.value
    ensures '\n' !in Join(CsvCells(e, show), ',')
  {
    var cells := CsvCells(e, show);
    forall p | p in cells
      ensures '\n' !in p
    {
    }
    JoinKeepsOut(cells, ',', '\n');
  }

  /**
   * The export is one header line plus exactly one line per entry: the
   * file holds |h| newlines, and every line has eleven cells.
   */
  lemma CsvLineCount(h: seq<Entry>, show: real -> string)
    requires h != [] && SingleLine(h, show)
    ensures Occurrences(ExportCsv(h, show).value, '\n') == |h|
  {
    var header := Join(CsvColumns, ',');
    HeaderSingleLine();
    var rows := CsvRows(h, show);
    var lines := [header] + rows;
    forall i | 0 <= i < |rows|
      ensures '\n' !in rows[i]
    {
      assert h[i] in h;
      RowSingleLine(h[i], show);
    }
    assert forall p :: p in lines ==> p == header || exists i :: 0 <= i < |rows| && rows[i] == p;
    JoinSeparators(lines, '\n');
  }

  /** The header has no line break. */
  lemma HeaderSingleLine()
    ensures '\n' !in Join(CsvColumns, ',')
  {
    JoinKeepsOut(CsvColumns, ',', '\n');
  }

  /** The header has eleven columns. */
  lemma HeaderColumnCount()
    ensures Occurrences(Join(CsvColumns, ','), ',') == 10
  {
    JoinSeparators(CsvColumns, ',');
  }

  /** Without commas in the data, every line splits into the eleven columns. */
  lemma CsvColumnCount(e: Entry, show: real -> string)
    requires forall x :: ',' !in show(x)
    requires ',' !in e.timestamp
    requires e.txHash.Some? ==> ',' !in e.txHash.value
    requires e.direction.Some? ==> ',' !in e.direction.value
    ensures Occurrences(Join(CsvColumns, ','), ',') == 10
    ensures Occurrences(Join(CsvCells(e, show), ','), ',') == 10
  {
    HeaderColumnCount();
    var cells := CsvCells(e, show);
    forall p | p in cells
      ensures ',' !in p
    {
    }
    JoinSeparators(cells, ',');
  }
}
