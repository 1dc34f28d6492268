/**
 * app.py: the serving path. `is_market_open`, `calculate_accuracy` and
 * everything the `/predict` handler computes from the downloaded closes,
 * the loaded model and the current time; rendering is left out.
 */
module App {
  import opened Wrappers
  import opened Features
  import opened Calendar
  import opened Storage

  // ------------------------------------------------------------ session

  /** A wall-clock instant in the exchange's time zone (WIB). */
  datatype DateTime = DateTime(date: ValidDate, hour: int, minute: int, second: int, micro: int)

  predicate ValidTime(now: DateTime)
  {
    0 <= now.hour < 24 && 0 <= now.minute < 60 && 0 <= now.second < 60 && 0 <= now.micro < 1000000
  }

  type Instant = now: DateTime | ValidTime(now) witness DateTime(Date(1, 1, 1), 0, 0, 0, 0)

  /** `now.replace(hour=h, minute=m, second=s, microsecond=us)`. */
  function ReplaceTime(now: Instant, h: int, m: int, s: int, us: int): Instant
    requires 0 <= h < 24 && 0 <= m < 60 && 0 <= s < 60 && 0 <= us < 1000000
  {
    DateTime(now.date, h, m, s, us)
  }

  /** `a < b` for two datetimes of one time zone: field by field. */
  predicate Before(a: Instant, b: Instant)
  {
    if a.date.year != b.date.year then a.date.year < b.date.year
    else if a.date.month != b.date.month then a.date.month < b.date.month
    else if a.date.day != b.date.day then a.date.day < b.date.day
    else if a.hour != b.hour then a.hour < b.hour
    else if a.minute != b.minute then a.minute < b.minute
    else if a.second != b.second then a.second < b.second
    else a.micro < b.micro
  }

  /** `is_market_open()`: `now < now.replace(hour=16, minute=30, second=0, microsecond=0)`. */
  predicate IsMarketOpen(now: Instant)
  {
    Before(now, ReplaceTime(now, 16, 30, 0, 0))
  }

  /** Microseconds since midnight. */
  function MicrosOfDay(now: Instant): int
  {
    ((now.hour * 60 + now.minute) * 60 + now.second) * 1000000 + now.micro
  }

  /** 16:30:00.000000 in microseconds since midnight. */
  const CloseMicros: int := (16 * 60 + 30) * 60 * 1000000

  /** The market is open exactly while the time of day is strictly before
      16:30:00.000000, whatever the date. */
  lemma MarketOpenIff(now: Instant)
    ensures IsMarketOpen(now) <==> MicrosOfDay(now) < CloseMicros
    ensures IsMarketOpen(now) <==> now.hour < 16 || (now.hour == 16 && now.minute < 30)
  {
    var h, m, s, us := now.hour, now.minute, now.second, now.micro;
    var hm := h * 60 + m;
    assert MicrosOfDay(now) == (hm * 60 + s) * 1000000 + us;
    assert 0 <= s * 1000000 + us < 60000000;
    if hm < 16 * 60 + 30 {
      assert MicrosOfDay(now) < CloseMicros by {
        assert hm * 60 + s < (16 * 60 + 30) * 60;
      }
    } else {
      assert MicrosOfDay(now) >= CloseMicros by {
        assert hm * 60 >= (16 * 60 + 30) * 60;
      }
    }
  }

  /** Exactly 16:30:00.000000 is closed; one microsecond earlier is open. */
  lemma CloseInstantBoundary(d: ValidDate)
    ensures !IsMarketOpen(DateTime(d, 16, 30, 0, 0))
    ensures IsMarketOpen(DateTime(d, 16, 29, 59, 999999))
  {
  }

  /** The date a forecast applies to: today while open, tomorrow once
      closed; `None` where `now + timedelta(days=1)` overflows. */
  function PredictionDate(now: Instant): Option<ValidDate>
  {
    if IsMarketOpen(now) then Some(now.date) else NextDay(now.date)
  }

  lemma PredictionDateIsTodayOrTomorrow(now: Instant)
    ensures IsMarketOpen(now) ==> PredictionDate(now) == Some(now.date)
    ensures !IsMarketOpen(now) && now.date != Date(MaxYear, 12, 31) ==>
      PredictionDate(now).Some? && Ordinal(PredictionDate(now).value) == Ordinal(now.date) + 1
    ensures PredictionDate(now).None? <==> !IsMarketOpen(now) && now.date == Date(MaxYear, 12, 31)
  {
    NextDayIsOneLater(now.date);
  }

  // ----------------------------------------------------------- rounding

  /** `round(x, 2)` on a NumPy float: x * 100 rounded to the nearest
      integer, ties to even, then divided by 100. */
  function Round2(x: real): real
  {
    var y := x * 100.0;
    var f := y.Floor;
    var frac := y - f as real;
    var n := if frac < 0.5 then f else if frac > 0.5 then f + 1 else if f % 2 == 0 then f else f + 1;
    n as real / 100.0
  }

  /** Rounding moves a value by at most half a hundredth. */
  lemma Round2Error(x: real)
    ensures -0.005 <= Round2(x) - x <= 0.005
  {
  }

  /** Values with at most two decimals are unchanged, so rounding twice
      is rounding once. */
  lemma Round2Exact(k: int)
    ensures Round2(k as real / 100.0) == k as real / 100.0
  {
    var y := (k as real / 100.0) * 100.0;
    assert y == k as real;
    assert y.Floor == k;
  }

  lemma Round2Idempotent(x: real)
    ensures Round2(Round2(x)) == Round2(x)
  {
    var y := x * 100.0;
    var f := y.Floor;
    var frac := y - f as real;
    var n := if frac < 0.5 then f else if frac > 0.5 then f + 1 else if f % 2 == 0 then f else f + 1;
    assert Round2(x) == n as real / 100.0;
    Round2Exact(n);
  }

  /** Rounding is monotone. */
  lemma Round2Monotone(x: real, y: real)
    requires x <= y
    ensures Round2(x) <= Round2(y)
  {
    var fx, fy := (x * 100.0).Floor, (y * 100.0).Floor;
    assert fx <= fy;
  }

  /** Rounding keeps the sign of a value up to zero. */
  lemma Round2Sign(x: real)
    ensures x >= 0.0 ==> Round2(x) >= 0.0
    ensures x <= 0.0 ==> Round2(x) <= 0.0
    ensures Round2(0.0) == 0.0
  {
    Round2Exact(0);
    assert 0 as real / 100.0 == 0.0;
    if x >= 0.0 { Round2Monotone(0.0, x); }
    if x <= 0.0 { Round2Monotone(x, 0.0); }
  }

  // ----------------------------------------------------------- accuracy

  /** What `calculate_accuracy` returns: the empty-data message, the
      message of a NumPy shape error caught by the generic handler, a
      non-finite value (NumPy divides by a zero actual without raising),
      or the rounded MAPE. */
  datatype Accuracy = EmptyData | ShapeMismatch | NonFinite | Mape(percent: real)

  function Abs(x: real): real
  {
    if x < 0.0 then -x else x
  }

  function Sum(s: seq<real>): real
  {
    if |s| == 0 then 0.0 else Sum(s[..|s| - 1]) + s[|s| - 1]
  }

  /** NumPy broadcasting of two non-empty one-dimensional arrays: equal
      lengths pair up, and a length-one array stretches to the other. */
  predicate Broadcastable(a: seq<real>, p: seq<real>)
  {
    |a| == |p| || |a| == 1 || |p| == 1
  }

  function BroadcastLength(a: seq<real>, p: seq<real>): nat
  {
    if |a| == 1 then |p| else |a|
  }

  function At(s: seq<real>, i: nat): real
    requires |s| > 0 && (|s| == 1 || i < |s|)
  {
    if |s| == 1 then s[0] else s[i]
  }

  /** The absolute percentage errors `|(actual - predicted) / actual|`. */
  function Errors(a: seq<real>, p: seq<real>): (e: seq<real>)
    requires |a| > 0 && |p| > 0 && Broadcastable(a, p)
    requires forall i :: 0 <= i < BroadcastLength(a, p) ==> At(a, i) != 0.0
    ensures |e| == BroadcastLength(a, p)
  {
    seq(BroadcastLength(a, p), i requires 0 <= i < BroadcastLength(a, p) => Abs((At(a, i) - At(p, i)) / At(a, i)))
  }

  /** `calculate_accuracy(actual, predicted)`. */
  function CalculateAccuracy(a: seq<real>, p: seq<real>): Accuracy
  {
    if |a| == 0 || |p| == 0 then EmptyData
    else if !Broadcastable(a, p) then ShapeMismatch
    else if exists i :: 0 <= i < BroadcastLength(a, p) && At(a, i) == 0.0 then NonFinite
    else
      var e := Errors(a, p);
      Mape(Round2(Sum(e) / |e| as real * 100.0))
  }

  lemma {:induction false} SumOfZeros(s: seq<real>)
    requires forall i :: 0 <= i < |s| ==> s[i] == 0.0
    ensures Sum(s) == 0.0
  {
    if |s| > 0 {
      SumOfZeros(s[..|s| - 1]);
    }
  }

  lemma {:induction false} SumNonNegative(s: seq<real>)
    requires forall i :: 0 <= i < |s| ==> s[i] >= 0.0
    ensures Sum(s) >= 0.0
  {
    if |s| > 0 {
      SumNonNegative(s[..|s| - 1]);
    }
  }

  lemma AbsQuotient(x: real, y: real)
    requires y != 0.0
    ensures Abs(x / y) == Abs(x) / Abs(y) && Abs(x) / Abs(y) >= 0.0
  {
    if y < 0.0 {
      assert x / y == (-x) / (-y);
    }
  }

  /** Either input empty gives the empty-data message; otherwise shapes
      that NumPy cannot broadcast give the generic error. */
  lemma AccuracyErrors(a: seq<real>, p: seq<real>)
    ensures CalculateAccuracy(a, p) == EmptyData <==> |a| == 0 || |p| == 0
    ensures CalculateAccuracy(a, p) == ShapeMismatch <==> |a| > 0 && |p| > 0 && !Broadcastable(a, p)
    ensures CalculateAccuracy(a, p) == NonFinite <==>
      |a| > 0 && |p| > 0 && Broadcastable(a, p) && exists i :: 0 <= i < BroadcastLength(a, p) && At(a, i) == 0.0
  {
  }

  /** For equal-length inputs without a zero actual, the accuracy is the
      mean of `|a_i - p_i| / |a_i|` times 100, rounded to two decimals,
      and it is never negative. */
  lemma AccuracyIsMape(a: seq<real>, p: seq<real>)
    requires |a| == |p| > 0
    requires forall i :: 0 <= i < |a| ==> a[i] != 0.0
    ensures CalculateAccuracy(a, p) ==
      Mape(Round2(Sum(seq(|a|, i requires 0 <= i < |a| => Abs(a[i] - p[i]) / Abs(a[i]))) / |a| as real * 100.0))
    ensures CalculateAccuracy(a, p).percent >= 0.0
  {
    var e := seq(|a|, i requires 0 <= i < |a| => Abs(a[i] - p[i]) / Abs(a[i]));
    PairwiseErrors(a, p);
    assert forall i :: 0 <= i < BroadcastLength(a, p) ==> At(a, i) != 0.0;
    SumNonNegative(e);
    Round2Sign(Sum(e) / |e| as real * 100.0);
  }

  /** For equal lengths the broadcast errors are the pairwise ones. */
  lemma PairwiseErrors(a: seq<real>, p: seq<real>)
    requires |a| == |p| > 0
    requires forall i :: 0 <= i < |a| ==> a[i] != 0.0
    ensures Errors(a, p) == seq(|a|, i requires 0 <= i < |a| => Abs(a[i] - p[i]) / Abs(a[i]))
    ensures forall i :: 0 <= i < |a| ==> Errors(a, p)[i] >= 0.0
  {
    var e := seq(|a|, i requires 0 <= i < |a| => Abs(a[i] - p[i]) / Abs(a[i]));
    var e' := Errors(a, p);
    forall i | 0 <= i < |a|
      ensures e'[i] == e[i] && e[i] >= 0.0
    {
      assert At(a, i) == a[i] && At(p, i) == p[i];
      AbsQuotient(a[i] - p[i], a[i]);
    }
  }

  /** A perfect forecast scores zero. */
  lemma PerfectForecastScoresZero(a: seq<real>)
    requires |a| > 0
    requires forall i :: 0 <= i < |a| ==> a[i] != 0.0
    ensures CalculateAccuracy(a, a) == Mape(0.0)
  {
    var e := Errors(a, a);
    assert forall i :: 0 <= i < |e| ==> e[i] == 0.0;
    SumOfZeros(e);
    Round2Sign(0.0);
  }

  /** `calculate_accuracy([100], [110])` is 10.0. */
  lemma AccuracyExample()
    ensures CalculateAccuracy([100.0], [110.0]) == Mape(10.0)
  {
    var e := Errors([100.0], [110.0]);
    assert e == [0.1];
    assert Sum(e) == 0.1 by {
      assert e[..0] == [];
    }
    Round2Exact(1000);
  }

  // ------------------------------------------------------------ predict

  /** The `stocks` table: ticker to display name. */
  const Stocks: map<string, string> := map[
    "ADRO.JK" := "PT Alamtri Resources Indonesia Tbk (ADRO)",
    "ASII.JK" := "Astra International Tbk (ASII)",
    "BBCA.JK" := "Bank Central Asia Tbk (BBCA)",
    "BBNI.JK" := "Bank Negara Indonesia Persero Tbk (BBNI)",
    "BBRI.JK" := "Bank Rakyat Indonesia Persero Tbk (BBRI)",
    "BMRI.JK" := "Bank Mandiri Persero Tbk (BMRI)",
    "ICBP.JK" := "Indofood CBP Sukses Makmur Tbk (ICBP)",
    "PTBA.JK" := "Bukit Asam Tbk (PTBA)",
    "TLKM.JK" := "Telkom Indonesia Persero Tbk (TLKM)",
    "TOWR.JK" := "Sarana Menara Nusantara Tbk (TOWR)"
  ]

  /** `f'models/{stock_symbol}_model.pkl'`. */
  function ModelPath(symbol: string): string
  {
    "models/" + symbol + "_model.pkl"
  }

  /** The close the forecast is compared with: `iloc[-2]` while the
      market is open, `iloc[-1]` once it is closed. */
  function ReferenceClose(c: seq<Price>, open: bool): Price
    requires |c| >= 2
  {
    if open then c[|c| - 2] else c[|c| - 1]
  }

  /** `(prediction_value - close_price) / close_price * 100` before rounding. */
  function PercentageChange(pred: real, ref: Price): real
  {
    (pred - ref) / ref * 100.0
  }

  /** The change is zero, positive or negative exactly as the forecast is
      equal to, above or below the reference, and the forecast is
      recovered from it. */
  lemma PercentageChangeMeaning(pred: real, ref: Price)
    ensures PercentageChange(pred, ref) == 0.0 <==> pred == ref
    ensures PercentageChange(pred, ref) > 0.0 <==> pred > ref
    ensures PercentageChange(pred, ref) < 0.0 <==> pred < ref
    ensures pred == ref * (1.0 + PercentageChange(pred, ref) / 100.0)
  {
    var d := pred - ref;
    assert PercentageChange(pred, ref) == d / ref * 100.0;
    if d > 0.0 { assert d / ref > 0.0; }
    if d < 0.0 { assert d / ref < 0.0; }
  }

  /** The rounded change keeps the direction of the forecast. */
  lemma RoundedChangeDirection(pred: real, ref: Price)
    ensures pred == ref ==> Round2(PercentageChange(pred, ref)) == 0.0
    ensures pred >= ref ==> Round2(PercentageChange(pred, ref)) >= 0.0
    ensures pred <= ref ==> Round2(PercentageChange(pred, ref)) <= 0.0
  {
    PercentageChangeMeaning(pred, ref);
    Round2Sign(PercentageChange(pred, ref));
  }

  /** The last `min(10, |clean|)` clean rows: `data_clean[-10:]`. */
  function AccuracyWindow(clean: seq<FeatureVec>): (w: seq<FeatureVec>)
    ensures |w| == if |clean| < 10 then |clean| else 10
  {
    if |clean| < 10 then clean else clean[|clean| - 10..]
  }

  function WindowActuals(w: seq<FeatureVec>): (a: seq<real>)
    ensures |a| == |w|
  {
    seq(|w|, i requires 0 <= i < |w| => w[i].close)
  }

  function WindowPredictions(model: Model, predict: (Model, FeatureVec) -> real, w: seq<FeatureVec>): (p: seq<real>)
    ensures |p| == |w|
  {
    seq(|w|, i requires 0 <= i < |w| => predict(model, w[i]))
  }

  /** Actuals and predictions come from the same window rows, are equally
      long, and the window is the tail of the clean table. */
  lemma WindowAligned(clean: seq<FeatureVec>, model: Model, predict: (Model, FeatureVec) -> real)
    ensures var w := AccuracyWindow(clean);
      |WindowActuals(w)| == |WindowPredictions(model, predict, w)| == (if |clean| < 10 then |clean| else 10)
      && forall i :: 0 <= i < |w| ==> w[i] == clean[|clean| - |w| + i]
  {
  }

  /** How many closes the accuracy window covers: one per clean row, at
      most ten. */
  function RecentCount(n: nat): nat
  {
    if n <= 1 then 0 else if n - 1 < 10 then n - 1 else 10
  }

  /** The last `RecentCount` closes of the download, as reals. */
  function RecentCloses(closes: seq<Price>): (a: seq<real>)
    ensures |a| == RecentCount(|closes|)
  {
    var n, k := |closes|, RecentCount(|closes|);
    seq(k, i requires 0 <= i < k => closes[n - k + i] as real)
  }

  /** The model's predictions from the feature rows at those closes. */
  function RecentPredictions(model: Model, predict: (Model, FeatureVec) -> real, closes: seq<Price>): (p: seq<real>)
    ensures |p| == RecentCount(|closes|)
  {
    var n, k := |closes|, RecentCount(|closes|);
    seq(k, i requires 0 <= i < k => predict(model, VecAt(closes, n - k + i)))
  }

  /** The clean-row window of the handler covers the last `RecentCount`
      closes of the download and the feature rows built at them. */
  lemma WindowOfCloses(closes: seq<Price>, model: Model, predict: (Model, FeatureVec) -> real)
    ensures var w := AccuracyWindow(CleanRows(closes));
      WindowActuals(w) == RecentCloses(closes)
      && WindowPredictions(model, predict, w) == RecentPredictions(model, predict, closes)
  {
    var clean := CleanRows(closes);
    CleanRowsAreTail(closes);
    var w := AccuracyWindow(clean);
    var n, k := |closes|, RecentCount(|closes|);
    assert |w| == k;
    forall i | 0 <= i < k
      ensures w[i] == VecAt(closes, n - k + i)
    {
      assert w[i] == clean[|clean| - k + i];
    }
    assert WindowActuals(w) == RecentCloses(closes);
    assert WindowPredictions(model, predict, w) == RecentPredictions(model, predict, closes);
  }

  /** What the result page shows. */
  datatype Forecast = Forecast(stockName: string, prediction: real, closePrice: Price,
                               percentageChange: real, accuracy: Accuracy, predictionDate: ValidDate)

  /** The handler's early returns, in the order they are checked: no model
      file, empty download, no complete feature row, a date past year 9999
      and a ticker missing from `stocks`, the last two through the generic
      exception handler. */
  datatype PredictError = ModelNotFound(symbol: string) | DataUnavailable | InsufficientData
                        | DateOutOfRange | UnknownStock(symbol: string)

  datatype Response = Failed(error: PredictError) | Rendered(forecast: Forecast)

  /** The `/predict` handler. `models` is the model directory, `closes` the
      one-year download, `now` the current instant, and `predict` the
      fitted forest's prediction. */
  function Predict(symbol: string, models: map<string, Model>, closes: seq<Price>, now: Instant,
                   predict: (Model, FeatureVec) -> real): Response
  {
    var path := ModelPath(symbol);
    if path !in models then Failed(ModelNotFound(symbol))
    else if |closes| == 0 then Failed(DataUnavailable)
    else
      var model := models[path];
      var clean := CleanRows(closes);
      if |clean| == 0 then Failed(InsufficientData)
      else
        CleanRowsAreTail(closes);
        var value := predict(model, clean[|clean| - 1]);
        var open := IsMarketOpen(now);
        var ref := ReferenceClose(closes, open);
        var change := Round2(PercentageChange(value, ref));
        var w := AccuracyWindow(clean);
        var accuracy := CalculateAccuracy(WindowActuals(w), WindowPredictions(model, predict, w));
        match PredictionDate(now)
        case None => Failed(DateOutOfRange)
        case Some(date) =>
          if symbol !in Stocks then Failed(UnknownStock(symbol))
          else Rendered(Forecast(Stocks[symbol], value, ref, change, accuracy, date))
  }

  /** The handler fails exactly in these cases, checked in this order. */
  lemma PredictFailures(symbol: string, models: map<string, Model>, closes: seq<Price>, now: Instant,
                        predict: (Model, FeatureVec) -> real)
    ensures var r := Predict(symbol, models, closes, now, predict);
      && (r == Failed(ModelNotFound(symbol)) <==> ModelPath(symbol) !in models)
      && (r == Failed(DataUnavailable) <==> ModelPath(symbol) in models && |closes| == 0)
      && (r == Failed(InsufficientData) <==> ModelPath(symbol) in models && |closes| == 1)
      && (r == Failed(DateOutOfRange) <==> ModelPath(symbol) in models && |closes| >= 2
                                            && PredictionDate(now).None?)
      && (r == Failed(UnknownStock(symbol)) <==> ModelPath(symbol) in models && |closes| >= 2
                                                 && PredictionDate(now).Some? && symbol !in Stocks)
      && (r.Rendered? <==> ModelPath(symbol) in models && |closes| >= 2
                           && PredictionDate(now).Some? && symbol in Stocks)
  {
    CleanRowsAreTail(closes);
  }

  /** A rendered forecast predicts from the last close and its features,
      compares with the close before it while the market is open and with
      the last close once closed, scores the model on the last ten clean
      rows, and applies to today while open and tomorrow once closed. */
  lemma PredictForecast(symbol: string, models: map<string, Model>, closes: seq<Price>, now: Instant,
                        predict: (Model, FeatureVec) -> real)
    requires Predict(symbol, models, closes, now, predict).Rendered?
    ensures var f := Predict(symbol, models, closes, now, predict).forecast;
      var n := |closes|;
      && n >= 2
      && f.stockName == Stocks[symbol]
      && f.prediction == predict(models[ModelPath(symbol)], VecAt(closes, n - 1))
      && f.closePrice == (if IsMarketOpen(now) then closes[n - 2] else closes[n - 1])
      && f.percentageChange == Round2(PercentageChange(f.prediction, f.closePrice))
      && f.accuracy == CalculateAccuracy(RecentCloses(closes), RecentPredictions(models[ModelPath(symbol)], predict, closes))
      && f.accuracy.Mape? && f.accuracy.percent >= 0.0
      && (IsMarketOpen(now) ==> f.predictionDate == now.date)
      && (!IsMarketOpen(now) ==> Ordinal(f.predictionDate) == Ordinal(now.date) + 1)
  {
    CleanRowsAreTail(closes);
    NextDayIsOneLater(now.date);
    var model := models[ModelPath(symbol)];
    var clean := CleanRows(closes);
    var w := AccuracyWindow(clean);
    WindowOfCloses(closes, model, predict);
    var a, p := RecentCloses(closes), RecentPredictions(model, predict, closes);
    assert forall i :: 0 <= i < |a| ==> a[i] > 0.0;
    AccuracyIsMape(a, p);
  }
}
