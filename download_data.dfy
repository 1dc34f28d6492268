/**
 * download_data.py: for each ticker, download the daily bars, drop bars
 * with a missing value, add the EMA_10 and Return columns, drop the rows
 * that now have a missing value, and write `output_folder/ticker.xlsx`.
 */
module DownloadData {
  import opened Wrappers
  import opened Features
  import opened Strings
  import opened Storage

  /** A bar as the market-data provider returns it; any column may be NaN. */
  datatype Bar = Bar(date: int, open: Option<real>, high: Option<real>, low: Option<real>,
                     close: Option<Price>, volume: Option<real>)

  const Tickers: seq<string> := ["ADRO.JK", "ASII.JK", "BBCA.JK", "BBNI.JK", "BBRI.JK",
                                 "BMRI.JK", "ICBP.JK", "PTBA.JK", "TLKM.JK", "TOWR.JK"]
  const OutputFolder: string := "data"

  /** The bar with every column defined, or `None` when `dropna()` removes it. */
  function Clean(b: Bar): Option<CleanBar>
  {
    if b.open.Some? && b.high.Some? && b.low.Some? && b.close.Some? && b.volume.Some?
    then Some(CleanBar(b.date, b.open.value, b.high.value, b.low.value, b.close.value, b.volume.value))
    else None
  }

  function CleanOpts(bars: seq<Bar>): (s: seq<Option<CleanBar>>)
    ensures |s| == |bars|
  {
    seq(|bars|, i requires 0 <= i < |bars| => Clean(bars[i]))
  }

  /** `stock_data.dropna()`, the first cleaning pass. */
  function CleanBars(bars: seq<Bar>): seq<CleanBar>
  {
    DropNa(CleanOpts(bars))
  }

  function Closes(cb: seq<CleanBar>): (c: seq<Price>)
    ensures |c| == |cb|
  {
    seq(|cb|, i requires 0 <= i < |cb| => cb[i].close)
  }

  /** Row t of the frame after EMA_10 and Return are added, `None` when its
      Return is NaN. */
  function Annotate(cb: seq<CleanBar>, t: nat): Option<ProcessedRow>
    requires t < |cb|
  {
    var c := Closes(cb);
    match ReturnAt(c, t)
    case None => None
    case Some(r) => Some(ProcessedRow(cb[t], EmaAt(c, t), r))
  }

  /** The sheet download_data.py writes: `dropna()` over the annotated
      frame of the clean bars. */
  function Processed(bars: seq<Bar>): Sheet
  {
    var cb := CleanBars(bars);
    DropNa(seq(|cb|, t requires 0 <= t < |cb| => Annotate(cb, t)))
  }

  /** The row the second cleaning pass keeps for clean bar t >= 1. */
  function RowAt(cb: seq<CleanBar>, t: nat): ProcessedRow
    requires 1 <= t < |cb|
  {
    var c := Closes(cb);
    ProcessedRow(cb[t], EmaAt(c, t), (c[t] as real - c[t - 1]) / c[t - 1])
  }

  /** The output keeps the clean bars minus the first one, in order; each
      kept row's EMA is the recursion seeded at the first clean close and
      run through its own close, and its Return uses the preceding clean
      bar's close. */
  lemma ProcessedShape(bars: seq<Bar>)
    ensures |Processed(bars)| == if |CleanBars(bars)| == 0 then 0 else |CleanBars(bars)| - 1
    ensures forall k :: 0 <= k < |Processed(bars)| ==> Processed(bars)[k] == RowAt(CleanBars(bars), k + 1)
  {
    var cb := CleanBars(bars);
    var s := seq(|cb|, t requires 0 <= t < |cb| => Annotate(cb, t));
    if |cb| > 0 {
      DropNaFirstUndefined(s);
    }
  }

  /** The input positions of the kept rows, in sheet order. */
  function SourcePositions(bars: seq<Bar>): seq<nat>
  {
    var idx := DropNaIndices(CleanOpts(bars));
    if |idx| == 0 then [] else idx[1..]
  }

  /** Every kept row is some complete input bar, taken at strictly
      increasing input positions; so a date-ordered download yields a
      date-ordered sheet. */
  lemma ProcessedRowsComeFromInput(bars: seq<Bar>)
    ensures |SourcePositions(bars)| == |Processed(bars)|
    ensures forall k :: 0 <= k < |Processed(bars)| ==>
      SourcePositions(bars)[k] < |bars| && Clean(bars[SourcePositions(bars)[k]]) == Some(Processed(bars)[k].bar)
    ensures forall k, l :: 0 <= k < l < |Processed(bars)| ==> SourcePositions(bars)[k] < SourcePositions(bars)[l]
  {
    var opts, cb, p := CleanOpts(bars), CleanBars(bars), Processed(bars);
    DropNaKeepsDefined(opts);
    ProcessedShape(bars);
    var idx, src := DropNaIndices(opts), SourcePositions(bars);
    assert |idx| == |cb|;
    forall k | 0 <= k < |p|
      ensures src[k] < |bars| && Clean(bars[src[k]]) == Some(p[k].bar)
    {
      assert src[k] == idx[k + 1];
      assert opts[idx[k + 1]] == Some(cb[k + 1]);
      assert p[k].bar == cb[k + 1];
    }
    forall k, l | 0 <= k < l < |p|
      ensures src[k] < src[l]
    {
      assert src[k] == idx[k + 1] && src[l] == idx[l + 1];
    }
  }

  /** Strictly increasing input dates give strictly increasing sheet dates. */
  lemma ProcessedDatesIncrease(bars: seq<Bar>)
    requires forall i, j :: 0 <= i < j < |bars| ==> bars[i].date < bars[j].date
    ensures forall k, l :: 0 <= k < l < |Processed(bars)| ==> Processed(bars)[k].bar.date < Processed(bars)[l].bar.date
  {
    ProcessedRowsComeFromInput(bars);
    var src := SourcePositions(bars);
    forall k, l | 0 <= k < l < |Processed(bars)|
      ensures Processed(bars)[k].bar.date < Processed(bars)[l].bar.date
    {
      assert Clean(bars[src[k]]) == Some(Processed(bars)[k].bar);
      assert Clean(bars[src[l]]) == Some(Processed(bars)[l].bar);
    }
  }

  /** The transformation of download_data.py, one pass per cleaning step
      and one pass computing the EMA_10 and Return columns. */
  method ProcessStockData(bars: seq<Bar>) returns (sheet: Sheet)
    ensures sheet == Processed(bars)
  {
    var clean: seq<CleanBar> := [];
    var i := 0;
    while i < |bars|
      invariant 0 <= i <= |bars|
      invariant clean == DropNa(CleanOpts(bars[..i]))
    {
      assert CleanOpts(bars[..i + 1]) == CleanOpts(bars[..i]) + [Clean(bars[i])];
      DropNaSnoc(CleanOpts(bars[..i]), Clean(bars[i]));
      var b := bars[i];
      if b.open.Some? && b.high.Some? && b.low.Some? && b.close.Some? && b.volume.Some? {
        clean := clean + [CleanBar(b.date, b.open.value, b.high.value, b.low.value, b.close.value, b.volume.value)];
      }
      i := i + 1;
    }
    assert bars[..|bars|] == bars;
    assert clean == CleanBars(bars);
    sheet := [];
    if |clean| > 0 {
      ghost var c := Closes(clean);
      var ema: real := clean[0].close;
      var t := 1;
      while t < |clean|
        invariant 1 <= t <= |clean|
        invariant ema == EmaAt(c, t - 1)
        invariant |sheet| == t - 1
        invariant forall k :: 0 <= k < t - 1 ==> sheet[k] == RowAt(clean, k + 1)
      {
        var prev, x := clean[t - 1].close, clean[t].close;
        assert EmaAt(c, t) == EmaStep(ema, x);
        ema := Alpha * x + (1.0 - Alpha) * ema;
        sheet := sheet + [ProcessedRow(clean[t], ema, (x as real - prev) / prev)];
        t := t + 1;
      }
    }
    ProcessedShape(bars);
  }

  /** `os.path.join(output_folder, f"{ticker}.xlsx")`. */
  function OutputFile(folder: string, ticker: string): string
  {
    Join(folder, ticker + ".xlsx")
  }

  /** The output path of a relative ticker under a plain folder name is
      `folder/ticker.xlsx`, different for different tickers. */
  lemma OutputFileShape(folder: string, t1: string, t2: string)
    requires |folder| > 0 && folder[|folder| - 1] != '/'
    requires |t1| == 0 || t1[0] != '/'
    requires |t2| == 0 || t2[0] != '/'
    ensures OutputFile(folder, t1) == folder + "/" + t1 + ".xlsx"
    ensures OutputFile(folder, t1) == OutputFile(folder, t2) ==> t1 == t2
  {
    assert (t1 + ".xlsx")[..|t1|] == t1 && (t2 + ".xlsx")[..|t2|] == t2;
    if OutputFile(folder, t1) == OutputFile(folder, t2) {
      JoinInjective(folder, t1 + ".xlsx", t2 + ".xlsx");
    }
  }

  /** The sheets after processing one ticker: an empty download writes
      nothing, any other writes the processed sheet. */
  function AfterTicker(sheets: map<string, Sheet>, folder: string, ticker: string, bars: seq<Bar>): map<string, Sheet>
  {
    if |bars| == 0 then sheets else sheets[OutputFile(folder, ticker) := Processed(bars)]
  }

  /** `download_and_process_stock_data(ticker, start_date, end_date, output_folder)`,
      with the download already done. */
  method DownloadAndProcess(disk: Disk, ticker: string, bars: seq<Bar>, folder: string)
    modifies disk
    ensures disk.sheets == AfterTicker(old(disk.sheets), folder, ticker, bars)
    ensures disk.models == old(disk.models)
  {
    if |bars| == 0 {
      return;
    }
    var sheet := ProcessStockData(bars);
    disk.WriteSheet(OutputFile(folder, ticker), sheet);
  }

  /** The sheets after processing the tickers in list order; `fetch` is the
      provider's answer for the fixed date range. */
  function AfterAll(sheets: map<string, Sheet>, folder: string, tickers: seq<string>,
                    fetch: string -> seq<Bar>): map<string, Sheet>
  {
    if |tickers| == 0 then sheets
    else
      var last := tickers[|tickers| - 1];
      AfterTicker(AfterAll(sheets, folder, tickers[..|tickers| - 1], fetch), folder, last, fetch(last))
  }

  /** The script's top-level loop. */
  method DownloadAll(disk: Disk, tickers: seq<string>, fetch: string -> seq<Bar>, folder: string)
    modifies disk
    ensures disk.sheets == AfterAll(old(disk.sheets), folder, tickers, fetch)
    ensures disk.models == old(disk.models)
  {
    var i := 0;
    while i < |tickers|
      invariant 0 <= i <= |tickers|
      invariant disk.sheets == AfterAll(old(disk.sheets), folder, tickers[..i], fetch)
      invariant disk.models == old(disk.models)
    {
      assert tickers[..i + 1][..i] == tickers[..i];
      DownloadAndProcess(disk, tickers[i], fetch(tickers[i]), folder);
      i := i + 1;
    }
    assert tickers[..|tickers|] == tickers;
  }

  /** The output files written for the tickers whose download was non-empty. */
  predicate Written(folder: string, tickers: seq<string>, fetch: string -> seq<Bar>, p: string)
  {
    exists i :: 0 <= i < |tickers| && |fetch(tickers[i])| > 0 && p == OutputFile(folder, tickers[i])
  }

  /** Tickers are processed independently: when their output files are
      distinct, each ticker's file holds its own processed sheet if its
      download was non-empty. */
  lemma {:induction false} EachTickerWritesItsSheet(sheets: map<string, Sheet>, folder: string,
                                                   tickers: seq<string>, fetch: string -> seq<Bar>, i: nat)
    requires forall j, k :: 0 <= j < k < |tickers| ==> OutputFile(folder, tickers[j]) != OutputFile(folder, tickers[k])
    requires i < |tickers| && |fetch(tickers[i])| > 0
    ensures OutputFile(folder, tickers[i]) in AfterAll(sheets, folder, tickers, fetch)
    ensures AfterAll(sheets, folder, tickers, fetch)[OutputFile(folder, tickers[i])] == Processed(fetch(tickers[i]))
  {
    var n := |tickers|;
    if i < n - 1 {
      var init := tickers[..n - 1];
      assert OutputFile(folder, tickers[i]) != OutputFile(folder, tickers[n - 1]);
      EachTickerWritesItsSheet(sheets, folder, init, fetch, i);
    }
  }

  /** A file no ticker writes keeps its previous state. */
  lemma {:induction false} OtherFilesUntouched(sheets: map<string, Sheet>, folder: string,
                                              tickers: seq<string>, fetch: string -> seq<Bar>, p: string)
    requires !Written(folder, tickers, fetch, p)
    ensures p in AfterAll(sheets, folder, tickers, fetch) <==> p in sheets
    ensures p in sheets ==> AfterAll(sheets, folder, tickers, fetch)[p] == sheets[p]
  {
    var n := |tickers|;
    if n > 0 {
      var init := tickers[..n - 1];
      assert forall i :: 0 <= i < |init| ==> init[i] == tickers[i];
      assert |fetch(tickers[n - 1])| > 0 ==> p != OutputFile(folder, tickers[n - 1]);
      OtherFilesUntouched(sheets, folder, init, fetch, p);
    }
  }
}
